/** Text matching the library's searches rely on: the database's
    case-insensitive substring test (`icontains`), modelled with ASCII
    lower-casing, and the whitespace stripping a form field applies to
    its input before validating it. */
module Text {

  /** ASCII lower-casing of one character; every other character is kept. */
  function LowerChar(c: char): char {
    if 'A' <= c <= 'Z' then (c as int + 32) as char else c
  }

  function Lower(s: string): string {
    seq(|s|, i requires 0 <= i < |s| => LowerChar(s[i]))
  }

  /** `needle` occurs in `hay` starting at position `i`. */
  ghost predicate OccursAt(needle: string, hay: string, i: int) {
    0 <= i && i + |needle| <= |hay| && hay[i..i + |needle|] == needle
  }

  /** Case-sensitive substring test, scanning `hay` from the left. */
  function Contains(hay: string, needle: string): bool
    decreases |hay|
  {
    if |needle| > |hay| then false
    else if hay[..|needle|] == needle then true
    else Contains(hay[1..], needle)
  }

  /** The scan agrees with the reference definition: some position holds an occurrence. */
  lemma {:induction false} ContainsIffOccurs(hay: string, needle: string)
    ensures Contains(hay, needle) <==> exists i :: OccursAt(needle, hay, i)
    decreases |hay|
  {
    if |needle| > |hay| {
    } else if hay[..|needle|] == needle {
      assert OccursAt(needle, hay, 0);
    } else {
      ContainsIffOccurs(hay[1..], needle);
      forall i | OccursAt(needle, hay, i)
        ensures i >= 1 && OccursAt(needle, hay[1..], i - 1)
      {
        assert hay[1..][i - 1..i - 1 + |needle|] == hay[i..i + |needle|];
      }
      forall j | OccursAt(needle, hay[1..], j)
        ensures OccursAt(needle, hay, j + 1)
      {
        assert hay[1..][j..j + |needle|] == hay[j + 1..j + 1 + |needle|];
      }
    }
  }

  /** The `icontains` lookup: substring test after folding both sides to lower case. */
  function IContains(hay: string, needle: string): (r: bool)
    ensures r <==> exists i :: OccursAt(Lower(needle), Lower(hay), i)
  {
    ContainsIffOccurs(Lower(hay), Lower(needle));
    Contains(Lower(hay), Lower(needle))
  }

  lemma LowerIdempotent(s: string)
    ensures Lower(Lower(s)) == Lower(s)
  {
  }

  /** The case of the query does not matter to `icontains`. */
  lemma IContainsIgnoresNeedleCase(hay: string, needle: string)
    ensures IContains(hay, Lower(needle)) == IContains(hay, needle)
  {
    LowerIdempotent(needle);
  }

  /** An exact (case-sensitive) occurrence is also found by `icontains`. */
  lemma ContainsImpliesIContains(hay: string, needle: string)
    requires Contains(hay, needle)
    ensures IContains(hay, needle)
  {
    ContainsIffOccurs(hay, needle);
    var i :| OccursAt(needle, hay, i);
    assert Lower(hay)[i..i + |needle|] == Lower(needle);
    assert OccursAt(Lower(needle), Lower(hay), i);
    ContainsIffOccurs(Lower(hay), Lower(needle));
  }

  /** Python's `str.isspace`: the characters `str.strip()` removes. */
  predicate IsSpace(c: char) {
    || '\t' <= c <= '\r' || '\U{1C}' <= c <= ' ' || c == '\U{85}' || c == '\U{A0}'
    || c == '\U{1680}' || '\U{2000}' <= c <= '\U{200A}' || c == '\U{2028}' || c == '\U{2029}'
    || c == '\U{202F}' || c == '\U{205F}' || c == '\U{3000}'
  }

  /** `s` with its leading whitespace removed. */
  function TrimStart(s: string): (r: string)
    ensures |r| <= |s| && r == s[|s| - |r|..]
    ensures forall k :: 0 <= k < |s| - |r| ==> IsSpace(s[k])
    ensures r != [] ==> !IsSpace(r[0])
  {
    if s != [] && IsSpace(s[0]) then TrimStart(s[1..]) else s
  }

  /** `s` with its trailing whitespace removed. */
  function TrimEnd(s: string): (r: string)
    ensures |r| <= |s| && r == s[..|r|]
    ensures forall k :: |r| <= k < |s| ==> IsSpace(s[k])
    ensures r != [] ==> !IsSpace(r[|r| - 1])
  {
    if s != [] && IsSpace(s[|s| - 1]) then TrimEnd(s[..|s| - 1]) else s
  }

  /** `r` is the slice of `s` from `i` on, with only whitespace outside it. */
  ghost predicate SliceBetweenSpaces(s: string, r: string, i: int) {
    0 <= i && i + |r| <= |s| && r == s[i..i + |r|]
    && (forall k :: 0 <= k < i ==> IsSpace(s[k]))
    && (forall k :: i + |r| <= k < |s| ==> IsSpace(s[k]))
  }

  /** Python's `str.strip()`: a slice of `s` that neither starts nor ends
      with whitespace, everything outside it being whitespace. */
  function Strip(s: string): (r: string)
    ensures exists i :: SliceBetweenSpaces(s, r, i)
    ensures r != [] ==> !IsSpace(r[0]) && !IsSpace(r[|r| - 1])
  {
    var t := TrimStart(s);
    var r := TrimEnd(t);
    assert s[|s| - |t|..][..|r|] == s[|s| - |t|..|s| - |t| + |r|];
    assert SliceBetweenSpaces(s, r, |s| - |t|);
    r
  }
}
