/** The grid view's grouping and sorting descriptors as the three group-by radio buttons
    set them. Only the descriptor lists are modelled, not the ordering WPF renders from them. */
module GroupView {

  datatype Direction = Ascending | Descending

  datatype SortDescription = SortDescription(property: string, direction: Direction)

  /** The default view of the entry grid: whether it supports grouping and sorting, its
      GroupDescriptions (property paths) and its SortDescriptions. */
  datatype CollectionView = CollectionView(
    canGroup: bool,
    canSort: bool,
    groups: seq<string>,
    sorts: seq<SortDescription>)

  const SourcePath := "LogItem.Source"
  const EventIdPath := "LogItem.EventID"
  const TimeWrittenPath := "LogItem.TimeWritten"

  /** radioButtonGroupBySource_Checked. */
  function GroupBySource(cv: CollectionView): (r: CollectionView)
    ensures r.canGroup == cv.canGroup && r.canSort == cv.canSort
    ensures cv.canGroup ==> r.groups == [SourcePath]
    ensures cv.canSort ==> r.sorts == [SortDescription(SourcePath, Ascending), SortDescription(TimeWrittenPath, Ascending)]
    ensures !cv.canGroup ==> r.groups == cv.groups
    ensures !cv.canSort ==> r.sorts == cv.sorts
  {
    var grouped := if cv.canGroup then cv.(groups := [SourcePath]) else cv;
    if grouped.canSort then
      grouped.(sorts := [SortDescription(SourcePath, Ascending), SortDescription(TimeWrittenPath, Ascending)])
    else grouped
  }

  /** radioButtonGroupByEventId_Checked. */
  function GroupByEventId(cv: CollectionView): (r: CollectionView)
    ensures r.canGroup == cv.canGroup && r.canSort == cv.canSort
    ensures cv.canGroup ==> r.groups == [EventIdPath]
    ensures cv.canSort ==> r.sorts == [SortDescription(EventIdPath, Ascending), SortDescription(TimeWrittenPath, Ascending)]
    ensures !cv.canGroup ==> r.groups == cv.groups
    ensures !cv.canSort ==> r.sorts == cv.sorts
  {
    var grouped := if cv.canGroup then cv.(groups := [EventIdPath]) else cv;
    if grouped.canSort then
      grouped.(sorts := [SortDescription(EventIdPath, Ascending), SortDescription(TimeWrittenPath, Ascending)])
    else grouped
  }

  /** radioButtonGroupByNone_Checked: clears the groups only; the sort order stays. */
  function GroupByNone(cv: CollectionView): (r: CollectionView)
    ensures r.sorts == cv.sorts && r.canGroup == cv.canGroup && r.canSort == cv.canSort
    ensures r.groups == if cv.canGroup then [] else cv.groups
  {
    if cv.canGroup then cv.(groups := []) else cv
  }

  /** A mode's descriptors do not depend on what was selected before, and selecting the
      same mode again changes nothing. */
  lemma ModesForgetHistory(cv: CollectionView)
    ensures GroupBySource(GroupByEventId(cv)) == GroupBySource(cv)
    ensures GroupByEventId(GroupBySource(cv)) == GroupByEventId(cv)
    ensures GroupBySource(GroupBySource(cv)) == GroupBySource(cv)
    ensures GroupByEventId(GroupByEventId(cv)) == GroupByEventId(cv)
    ensures GroupByNone(GroupByNone(cv)) == GroupByNone(cv)
  {
  }

  /** Switching to None after a grouping keeps that grouping's sort order (source or
      event id, then time written). */
  lemma NoneKeepsLastSort(cv: CollectionView)
    requires cv.canGroup && cv.canSort
    ensures GroupByNone(GroupBySource(cv))
         == cv.(groups := [], sorts := [SortDescription(SourcePath, Ascending), SortDescription(TimeWrittenPath, Ascending)])
    ensures GroupByNone(GroupByEventId(cv))
         == cv.(groups := [], sorts := [SortDescription(EventIdPath, Ascending), SortDescription(TimeWrittenPath, Ascending)])
  {
  }
}
