/** The few .NET string operations the filters rely on, over `string == seq<char>`:
    Char.IsWhiteSpace, string.IsNullOrWhiteSpace, ordinal string.Contains,
    string.Split(char), Int32.ToString() and character filtering. */
module Text {

  /** Char.IsWhiteSpace: the Unicode space, line and paragraph separators,
      U+0009..U+000D and U+0085. */
  predicate IsWhiteSpace(c: char) {
    c == ' ' || ('\t' <= c <= '\r') || c == '\U{0085}' || c == '\U{00A0}' || c == '\U{1680}'
    || ('\U{2000}' <= c <= '\U{200A}') || c == '\U{2028}' || c == '\U{2029}'
    || c == '\U{202F}' || c == '\U{205F}' || c == '\U{3000}'
  }

  /** string.IsNullOrWhiteSpace of a text box's text (never null): empty or only white space. */
  predicate IsBlank(s: string) {
    forall i :: 0 <= i < |s| ==> IsWhiteSpace(s[i])
  }

  predicate IsAsciiDigit(c: char) {
    '0' <= c <= '9'
  }

  // ---------------------------------------------------------------- substrings

  /** `needle` occurs in `text` at offset `i`. */
  predicate OccursAt(needle: string, text: string, i: int) {
    0 <= i && i + |needle| <= |text| && text[i..i + |needle|] == needle
  }

  /** Ordinal string.Contains(string): `needle` is a contiguous part of `text`. */
  predicate Contains(text: string, needle: string)
    decreases |text|
  {
    |needle| <= |text| && (text[..|needle|] == needle || (|text| > 0 && Contains(text[1..], needle)))
  }

  /** The scanning definition of Contains agrees with "occurs at some offset", in both directions. */
  lemma {:induction false} ContainsIffOccurs(text: string, needle: string)
    ensures Contains(text, needle) <==> exists i :: OccursAt(needle, text, i)
    decreases |text|
  {
    if Contains(text, needle) {
      if text[..|needle|] == needle {
        assert OccursAt(needle, text, 0);
      } else {
        ContainsIffOccurs(text[1..], needle);
        var i :| OccursAt(needle, text[1..], i);
        assert text[1..][i..i + |needle|] == text[i + 1..i + 1 + |needle|];
        assert OccursAt(needle, text, i + 1);
      }
    }
    if exists i :: OccursAt(needle, text, i) {
      var i :| OccursAt(needle, text, i);
      if i > 0 {
        assert text[1..][i - 1..i - 1 + |needle|] == text[i..i + |needle|];
        assert OccursAt(needle, text[1..], i - 1);
        ContainsIffOccurs(text[1..], needle);
      }
    }
  }

  /** The empty string is contained in every string: the reason an empty filter token matches all. */
  lemma ContainsEmpty(text: string)
    ensures Contains(text, "")
  {
    assert text[..0] == "";
  }

  /** Every string contains itself. */
  lemma ContainsSelf(text: string)
    ensures Contains(text, text)
  {
    assert text[..|text|] == text;
  }

  // ---------------------------------------------------------------- Split and Join

  /** Index of the first `c` in `s`, or |s| when `s` has none (string.IndexOf(char), with -1 as |s|). */
  function IndexOf(s: string, c: char): (k: nat)
    ensures k <= |s|
    ensures k < |s| ==> s[k] == c
    ensures forall j :: 0 <= j < k ==> s[j] != c
  {
    if s == [] then 0 else if s[0] == c then 0 else 1 + IndexOf(s[1..], c)
  }

  /** The inverse of Split: the pieces with one separator between each two. */
  function Join(parts: seq<string>, sep: char): string
  {
    if |parts| == 0 then "" else if |parts| == 1 then parts[0] else parts[0] + [sep] + Join(parts[1..], sep)
  }

  /** string.Split(char) without options: the pieces between successive separators,
      empty pieces included; there is always at least one piece. */
  function Split(s: string, sep: char): (r: seq<string>)
    ensures |r| >= 1
    ensures forall k :: 0 <= k < |r| ==> sep !in r[k]
    ensures Join(r, sep) == s
    decreases |s|
  {
    var k := IndexOf(s, sep);
    if k == |s| then
      [s]
    else
      var rest := Split(s[k + 1..], sep);
      assert s == s[..k] + [sep] + s[k + 1..];
      [s[..k]] + rest
  }

  /** Split undoes Join whenever no piece holds the separator. */
  lemma {:induction false} SplitJoin(parts: seq<string>, sep: char)
    requires |parts| >= 1
    requires forall k :: 0 <= k < |parts| ==> sep !in parts[k]
    ensures Split(Join(parts, sep), sep) == parts
  {
    if |parts| == 1 {
      assert IndexOf(parts[0], sep) == |parts[0]|;
    } else {
      var s := Join(parts, sep);
      var rest := Join(parts[1..], sep);
      assert s == parts[0] + [sep] + rest;
      assert s[|parts[0]|] == sep;
      IndexOfPrefix(parts[0], [sep] + rest, sep);
      assert s[|parts[0]| + 1..] == rest;
      assert s[..|parts[0]|] == parts[0];
      SplitJoin(parts[1..], sep);
    }
  }

  lemma IndexOfPrefix(a: string, b: string, c: char)
    requires c !in a
    requires |b| > 0 && b[0] == c
    ensures IndexOf(a + b, c) == |a|
  {
    assert (a + b)[|a|] == c;
    assert forall j :: 0 <= j < |a| ==> (a + b)[j] == a[j];
  }

  /** `w` appears in `s` at offset `i` as a whole piece: bounded by separators or by the ends of `s`. */
  predicate DelimitedAt(s: string, sep: char, w: string, i: int) {
    OccursAt(w, s, i) && (i == 0 || s[i - 1] == sep) && (i + |w| == |s| || s[i + |w|] == sep)
  }

  /** A separator-free string is one of the pieces of `s` exactly when it appears in `s`
      between separators (or the ends), in both directions. */
  lemma SplitMember(s: string, sep: char, w: string)
    requires sep !in w
    ensures w in Split(s, sep) <==> exists i :: DelimitedAt(s, sep, w, i)
  {
    if w in Split(s, sep) {
      PieceIsDelimited(s, sep, w);
    }
    if exists i :: DelimitedAt(s, sep, w, i) {
      var i :| DelimitedAt(s, sep, w, i);
      DelimitedIsPiece(s, sep, w, i);
    }
  }

  lemma {:induction false} PieceIsDelimited(s: string, sep: char, w: string)
    requires w in Split(s, sep)
    ensures exists i :: DelimitedAt(s, sep, w, i)
    decreases |s|
  {
    var k := IndexOf(s, sep);
    if k == |s| {
      assert Split(s, sep) == [s];
      assert s[0..|w|] == w;
      assert DelimitedAt(s, sep, w, 0);
    } else {
      var rest := s[k + 1..];
      assert Split(s, sep) == [s[..k]] + Split(rest, sep);
      if w == s[..k] {
        assert s[0..|w|] == w;
        assert DelimitedAt(s, sep, w, 0);
      } else {
        PieceIsDelimited(rest, sep, w);
        var j :| DelimitedAt(rest, sep, w, j);
        DelimitedUnshift(s, sep, w, k, j);
      }
    }
  }

  /** A piece of what follows the first separator is a piece of `s`. */
  lemma DelimitedUnshift(s: string, sep: char, w: string, k: nat, j: int)
    requires k < |s| && s[k] == sep
    requires DelimitedAt(s[k + 1..], sep, w, j)
    ensures DelimitedAt(s, sep, w, k + 1 + j)
  {
    var rest := s[k + 1..];
    assert rest[j..j + |w|] == s[k + 1 + j..k + 1 + j + |w|];
    if j > 0 {
      assert s[k + 1 + j - 1] == rest[j - 1];
    }
    if j + |w| < |rest| {
      assert s[k + 1 + j + |w|] == rest[j + |w|];
    }
  }

  lemma {:induction false} DelimitedIsPiece(s: string, sep: char, w: string, i: int)
    requires sep !in w
    requires DelimitedAt(s, sep, w, i)
    ensures w in Split(s, sep)
    decreases |s|
  {
    var k := IndexOf(s, sep);
    if i == 0 {
      DelimitedAtStart(s, sep, w);
    } else {
      assert s[i - 1] == sep;
      var rest := s[k + 1..];
      var j := i - (k + 1);
      DelimitedShift(s, sep, w, i, k);
      DelimitedIsPiece(rest, sep, w, j);
      assert Split(s, sep) == [s[..k]] + Split(rest, sep);
    }
  }

  /** A piece at the very start of `s` runs up to the first separator. */
  lemma DelimitedAtStart(s: string, sep: char, w: string)
    requires sep !in w
    requires DelimitedAt(s, sep, w, 0)
    ensures w == s[..IndexOf(s, sep)]
    ensures w in Split(s, sep)
  {
    var k := IndexOf(s, sep);
    assert w == s[..|w|];
    assert forall j :: 0 <= j < |w| ==> s[j] == w[j];
    assert k == |w|;
    assert Split(s, sep)[0] == s[..k];
  }

  /** A piece after the first separator is a piece of what follows that separator. */
  lemma DelimitedShift(s: string, sep: char, w: string, i: int, k: nat)
    requires sep !in w
    requires DelimitedAt(s, sep, w, i) && i > 0
    requires k == IndexOf(s, sep)
    ensures k < i
    ensures DelimitedAt(s[k + 1..], sep, w, i - (k + 1))
  {
    assert s[i - 1] == sep;
    var rest := s[k + 1..];
    var j := i - (k + 1);
    assert rest[j..j + |w|] == s[i..i + |w|];
    if j > 0 {
      assert rest[j - 1] == s[i - 1];
    }
    if j + |w| < |rest| {
      assert rest[j + |w|] == s[i + |w|];
    }
  }

  // ---------------------------------------------------------------- Int32.ToString()

  function DigitChar(d: nat): (c: char)
    requires d < 10
    ensures IsAsciiDigit(c)
  {
    (('0' as int) + d) as char
  }

  /** Decimal digits of a natural number, most significant first, no leading zeros. */
  function NatToString(n: nat): (s: string)
    ensures |s| >= 1
    ensures forall i :: 0 <= i < |s| ==> IsAsciiDigit(s[i])
  {
    if n < 10 then [DigitChar(n)] else NatToString(n / 10) + [DigitChar(n % 10)]
  }

  /** Int32.ToString() with the invariant-culture minus sign. */
  function IntToString(i: int): string
  {
    if i < 0 then "-" + NatToString(-i) else NatToString(i)
  }

  /** Reads a decimal digit string back (the partner of NatToString). */
  function ParseNat(s: string): nat
    requires forall i :: 0 <= i < |s| ==> IsAsciiDigit(s[i])
  {
    if s == [] then 0
    else
      assert IsAsciiDigit(s[|s| - 1]);
      10 * ParseNat(s[..|s| - 1]) + ((s[|s| - 1] as int) - ('0' as int))
  }

  lemma {:induction false} ParseNatToString(n: nat)
    ensures ParseNat(NatToString(n)) == n
  {
    var s := NatToString(n);
    if n >= 10 {
      assert s[..|s| - 1] == NatToString(n / 10);
      ParseNatToString(n / 10);
    }
  }

  lemma SignDistinguishes(neg: int, nonneg: int)
    requires neg < 0 <= nonneg
    ensures IntToString(neg) != IntToString(nonneg)
  {
    assert IntToString(neg)[0] == '-';
    assert IsAsciiDigit(IntToString(nonneg)[0]);
  }

  /** Different numbers print differently, and no printed number holds a comma. */
  lemma IntToStringInjective(a: int, b: int)
    ensures IntToString(a) == IntToString(b) ==> a == b
    ensures ',' !in IntToString(a)
  {
    IntToStringNoComma(a);
    if IntToString(a) == IntToString(b) {
      if a < 0 && b < 0 {
        NegativeInjective(a, b);
      } else if a >= 0 && b >= 0 {
        ParseNatToString(a);
        ParseNatToString(b);
      } else {
        SignDistinguishes(if a < 0 then a else b, if a < 0 then b else a);
      }
    }
  }

  lemma NegativeInjective(a: int, b: int)
    requires a < 0 && b < 0 && IntToString(a) == IntToString(b)
    ensures a == b
  {
    var x, y := NatToString(-a), NatToString(-b);
    assert ("-" + x)[1..] == x && ("-" + y)[1..] == y;
    assert x == y;
    ParseNatToString(-a);
    ParseNatToString(-b);
  }

  /** A printed number is a minus sign and digits, so it holds no comma. */
  lemma IntToStringNoComma(a: int)
    ensures ',' !in IntToString(a)
  {
    var s := IntToString(a);
    if a < 0 {
      assert forall i :: 1 <= i < |s| ==> s[i] == NatToString(-a)[i - 1];
    }
    assert forall i :: 0 <= i < |s| ==> s[i] == '-' || IsAsciiDigit(s[i]);
  }

  // ---------------------------------------------------------------- character filters

  /** The characters of `s` that satisfy `keep`, in their original order. */
  function KeepOnly(s: string, keep: char -> bool): string
  {
    if s == [] then [] else (if keep(s[0]) then [s[0]] else []) + KeepOnly(s[1..], keep)
  }

  /** string.Replace(c.ToString(), ""): every occurrence of `c` removed. */
  function RemoveChar(s: string, c: char): string
  {
    if s == [] then [] else (if s[0] == c then [] else [s[0]]) + RemoveChar(s[1..], c)
  }

  /** Replace removes every `c` and leaves every other character as often as it was. */
  lemma {:induction false} RemoveCharCounts(s: string, c: char)
    ensures multiset(RemoveChar(s, c)) == multiset(s)[c := 0]
  {
    if s != [] {
      assert s == [s[0]] + s[1..];
      RemoveCharCounts(s[1..], c);
    }
  }

  /** `s` without any character of `removed`. */
  function StripSet(s: string, removed: set<char>): string
  {
    if s == [] then [] else (if s[0] in removed then [] else [s[0]]) + StripSet(s[1..], removed)
  }

  lemma {:induction false} RemoveCharFromStripped(s: string, removed: set<char>, c: char)
    ensures RemoveChar(StripSet(s, removed), c) == StripSet(s, removed + {c})
  {
    if s != [] {
      RemoveCharFromStripped(s[1..], removed, c);
      RemoveCharConcat(if s[0] in removed then [] else [s[0]], StripSet(s[1..], removed), c);
    }
  }

  lemma {:induction false} RemoveCharConcat(a: string, b: string, c: char)
    ensures RemoveChar(a + b, c) == RemoveChar(a, c) + RemoveChar(b, c)
  {
    if a != [] {
      assert (a + b)[0] == a[0];
      assert (a + b)[1..] == a[1..] + b;
      RemoveCharConcat(a[1..], b, c);
    } else {
      assert a + b == b;
    }
  }

  /** Removing exactly the rejected characters leaves exactly the kept ones. */
  lemma {:induction false} StripRejectedIsKeep(s: string, removed: set<char>, keep: char -> bool)
    requires forall i :: 0 <= i < |s| ==> (s[i] in removed <==> !keep(s[i]))
    ensures StripSet(s, removed) == KeepOnly(s, keep)
  {
    if s != [] {
      assert forall i :: 1 <= i < |s| ==> s[1..][i - 1] == s[i];
      StripRejectedIsKeep(s[1..], removed, keep);
    }
  }

  /** KeepOnly keeps exactly the accepted characters: all of them, each as often, in order. */
  lemma {:induction false} KeepOnlyExact(s: string, keep: char -> bool)
    ensures forall i :: 0 <= i < |KeepOnly(s, keep)| ==> keep(KeepOnly(s, keep)[i])
    ensures forall c :: keep(c) ==> multiset(KeepOnly(s, keep))[c] == multiset(s)[c]
    ensures forall c :: !keep(c) ==> multiset(KeepOnly(s, keep))[c] == 0
  {
    if s != [] {
      KeepOnlyExact(s[1..], keep);
      assert s == [s[0]] + s[1..];
    }
  }

  /** KeepOnly respects concatenation, so it keeps the original order. */
  lemma {:induction false} KeepOnlyConcat(a: string, b: string, keep: char -> bool)
    ensures KeepOnly(a + b, keep) == KeepOnly(a, keep) + KeepOnly(b, keep)
  {
    if a != [] {
      assert (a + b)[0] == a[0];
      assert (a + b)[1..] == a[1..] + b;
      KeepOnlyConcat(a[1..], b, keep);
    } else {
      assert a + b == b;
    }
  }

  /** Filtering twice is filtering once. */
  lemma {:induction false} KeepOnlyIdempotent(s: string, keep: char -> bool)
    ensures KeepOnly(KeepOnly(s, keep), keep) == KeepOnly(s, keep)
  {
    if s != [] {
      KeepOnlyIdempotent(s[1..], keep);
      var head := if keep(s[0]) then [s[0]] else [];
      KeepOnlyConcat(head, KeepOnly(s[1..], keep), keep);
      if keep(s[0]) {
        assert KeepOnly(head, keep) == [s[0]] + KeepOnly([], keep);
      }
    }
  }
}
