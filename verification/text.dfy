/** Character-level helpers: the ASCII case folding behind Django's `icontains`
    lookup, blank-text detection of required form fields and the byte-wise string
    order the database uses for `ORDER BY` on a CharField. */
module Text {

  function Lower(c: char): (r: char)
    ensures 'A' <= c <= 'Z' ==> r as int == c as int + 32
    ensures !('A' <= c <= 'Z') ==> r == c
    ensures !('A' <= r <= 'Z')
  {
    if 'A' <= c <= 'Z' then (c as int + 32) as char else c
  }

  function LowerStr(s: string): (r: string)
    ensures |r| == |s|
    ensures forall i :: 0 <= i < |s| ==> r[i] == Lower(s[i])
  {
    if |s| == 0 then [] else [Lower(s[0])] + LowerStr(s[1..])
  }

  /** `needle` occurs in `hay` at offset `i`. */
  ghost predicate OccursAt(needle: string, hay: string, i: int)
  {
    0 <= i && i + |needle| <= |hay| && hay[i..i + |needle|] == needle
  }

  /** `needle` occurs somewhere in `hay`. */
  ghost predicate Occurs(needle: string, hay: string)
  {
    exists i :: OccursAt(needle, hay, i)
  }

  /** `needle` is a prefix of `hay`. */
  predicate IsPrefix(needle: string, hay: string)
  {
    |needle| <= |hay| && hay[..|needle|] == needle
  }

  /** Substring test, written as a scan over the start offsets. */
  function Contains(hay: string, needle: string): (r: bool)
    ensures r <==> Occurs(needle, hay)
    decreases |hay|
  {
    if IsPrefix(needle, hay) then
      assert OccursAt(needle, hay, 0);
      true
    else if |hay| == 0 then
      assert forall i :: !OccursAt(needle, hay, i);
      false
    else
      var rest := Contains(hay[1..], needle);
      ShiftOccurrence(needle, hay);
      rest
  }

  /** An occurrence in `hay[1..]` is an occurrence in `hay` one position later, and
      every occurrence in `hay` other than at 0 comes from one in `hay[1..]`. */
  lemma ShiftOccurrence(needle: string, hay: string)
    requires |hay| > 0
    requires !IsPrefix(needle, hay)
    ensures Occurs(needle, hay[1..]) <==> Occurs(needle, hay)
  {
    if i :| OccursAt(needle, hay[1..], i) {
      assert hay[i + 1..i + 1 + |needle|] == hay[1..][i..i + |needle|];
      assert OccursAt(needle, hay, i + 1);
    }
    if i :| OccursAt(needle, hay, i) {
      assert hay[1..][i - 1..i - 1 + |needle|] == hay[i..i + |needle|];
      assert OccursAt(needle, hay[1..], i - 1);
    }
  }

  /** Django's `name__icontains=q`: `q` occurs in `name`, ignoring ASCII case. */
  function ContainsIgnoringCase(name: string, q: string): (r: bool)
    ensures r <==> Occurs(LowerStr(q), LowerStr(name))
  {
    Contains(LowerStr(name), LowerStr(q))
  }

  /** The empty query occurs in every name. */
  lemma EmptyQueryMatchesEverything(name: string)
    ensures ContainsIgnoringCase(name, "")
  {
    assert OccursAt(LowerStr(""), LowerStr(name), 0);
  }

  /** A name always contains itself, whatever the case of either. */
  lemma NameMatchesItself(name: string)
    ensures ContainsIgnoringCase(name, name)
  {
    assert LowerStr(name)[0..|name|] == LowerStr(name);
    assert OccursAt(LowerStr(name), LowerStr(name), 0);
  }

  /** Python's `str.isspace`: the characters `str.strip()` removes, which are the
      ASCII separators and the Unicode space and line/paragraph separators. */
  predicate IsSpace(c: char)
  {
    || '\U{9}' <= c <= '\U{D}'
    || '\U{1C}' <= c <= '\U{20}'
    || c == '\U{85}' || c == '\U{A0}' || c == '\U{1680}'
    || '\U{2000}' <= c <= '\U{200A}'
    || c == '\U{2028}' || c == '\U{2029}' || c == '\U{202F}' || c == '\U{205F}' || c == '\U{3000}'
  }

  /** A text that holds nothing but whitespace. */
  predicate IsBlank(s: string)
  {
    SpacesIn(s, 0, |s|)
  }

  /** Every character of `s` at a position in `lo..hi` is whitespace. */
  predicate SpacesIn(s: string, lo: int, hi: int)
  {
    forall i :: lo <= i < hi && 0 <= i < |s| ==> IsSpace(s[i])
  }

  /** `r` is `s` without its leading and trailing whitespace: `s` is `r` with only
      whitespace before and after it, and `r` neither starts nor ends with
      whitespace. */
  ghost predicate IsStripOf(r: string, s: string)
  {
    && (|r| > 0 ==> !IsSpace(r[0]) && !IsSpace(r[|r| - 1]))
    && exists lo, hi :: StripAt(r, s, lo, hi)
  }

  /** `r` sits at `s[lo..hi]` with only whitespace before and after it. */
  ghost predicate StripAt(r: string, s: string, lo: int, hi: int)
  {
    0 <= lo <= hi <= |s| && s[lo..hi] == r && SpacesIn(s, 0, lo) && SpacesIn(s, hi, |s|)
  }

  /** `s` without its leading whitespace, given as the offset where the rest starts. */
  function StripStart(s: string, lo: nat): (start: nat)
    requires lo <= |s|
    requires SpacesIn(s, 0, lo)
    ensures lo <= start <= |s|
    ensures SpacesIn(s, 0, start)
    ensures start < |s| ==> !IsSpace(s[start])
    decreases |s| - lo
  {
    if lo < |s| && IsSpace(s[lo]) then StripStart(s, lo + 1) else lo
  }

  /** `s[lo..hi]` without its trailing whitespace, given as the offset where it ends. */
  function StripEnd(s: string, lo: nat, hi: nat): (end: nat)
    requires lo <= hi <= |s|
    requires SpacesIn(s, hi, |s|)
    ensures lo <= end <= hi
    ensures SpacesIn(s, end, |s|)
    ensures lo < end ==> !IsSpace(s[end - 1])
    decreases hi - lo
  {
    if lo < hi && IsSpace(s[hi - 1]) then StripEnd(s, lo, hi - 1) else hi
  }

  /** Python's `str.strip()` with no argument, which a Django form `CharField`
      applies to the submitted text before it checks and saves it. */
  function Strip(s: string): (r: string)
    ensures IsStripOf(r, s)
    ensures |r| == 0 <==> IsBlank(s)
  {
    var lo := StripStart(s, 0);
    var hi := StripEnd(s, lo, |s|);
    assert StripAt(s[lo..hi], s, lo, hi);
    s[lo..hi]
  }

  /** The stripped form is unique: any two strips of the same text agree. */
  lemma {:induction false} StripUnique(r1: string, r2: string, s: string)
    requires IsStripOf(r1, s) && IsStripOf(r2, s)
    ensures r1 == r2
  {
    var lo1, hi1 :| StripAt(r1, s, lo1, hi1);
    var lo2, hi2 :| StripAt(r2, s, lo2, hi2);
    assert |r1| > 0 ==> s[lo1] == r1[0] && s[hi1 - 1] == r1[|r1| - 1];
    assert |r2| > 0 ==> s[lo2] == r2[0] && s[hi2 - 1] == r2[|r2| - 1];
  }

  /** Code point order of strings: the order `ORDER BY` on a CharField gives under
      a binary collation. */
  function StrLess(a: string, b: string): (r: bool)
    ensures r ==> a != b
    ensures |a| == 0 ==> (r <==> |b| > 0)
  {
    if |b| == 0 then false
    else if |a| == 0 then true
    else if a[0] != b[0] then a[0] < b[0]
    else StrLess(a[1..], b[1..])
  }

  /** `a` comes before `b` at position `k`: they agree on their first `k`
      characters, and then `a` ends while `b` goes on, or `a` has the smaller
      character. */
  ghost predicate LessAt(a: string, b: string, k: int)
  {
    0 <= k <= |a| && k < |b| && a[..k] == b[..k] && (k == |a| || a[k] < b[k])
  }

  /** The lexicographic order, defined independently of the scan in `StrLess`. */
  ghost predicate LexLess(a: string, b: string)
  {
    exists k :: LessAt(a, b, k)
  }

  /** `StrLess` is exactly the lexicographic order. */
  lemma {:induction false} StrLessIsLexicographic(a: string, b: string)
    ensures StrLess(a, b) <==> LexLess(a, b)
    decreases |a|
  {
    if |b| == 0 {
    } else if |a| == 0 {
      assert LessAt(a, b, 0);
    } else if a[0] != b[0] {
      HeadsOfLess(a, b);
      if a[0] < b[0] { assert LessAt(a, b, 0); }
    } else {
      StrLessIsLexicographic(a[1..], b[1..]);
      if k :| LessAt(a[1..], b[1..], k) {
        assert a[..k + 1] == [a[0]] + a[1..][..k];
        assert b[..k + 1] == [b[0]] + b[1..][..k];
        assert LessAt(a, b, k + 1);
      }
      if k :| LessAt(a, b, k) {
        assert k > 0 by {
          if k == 0 { assert a[0] == b[0]; }
        }
        assert a[1..][..k - 1] == a[..k][1..];
        assert b[1..][..k - 1] == b[..k][1..];
        assert LessAt(a[1..], b[1..], k - 1);
      }
    }
  }

  /** Strings that differ in their first character are ordered by it. */
  lemma HeadsOfLess(a: string, b: string)
    requires |a| > 0 && |b| > 0
    ensures forall k :: LessAt(a, b, k) && k > 0 ==> a[0] == b[0]
  {
    forall k | LessAt(a, b, k) && k > 0 ensures a[0] == b[0] {
      assert a[..k][0] == b[..k][0];
    }
  }

  /** `StrLess` is a strict total order on distinct strings: exactly one of the
      two directions holds. */
  lemma {:induction false} StrLessTotal(a: string, b: string)
    ensures a != b ==> StrLess(a, b) != StrLess(b, a)
    ensures a == b ==> !StrLess(a, b)
    decreases |a|
  {
    if |a| > 0 && |b| > 0 && a[0] == b[0] {
      StrLessTotal(a[1..], b[1..]);
      if a != b {
        assert a == [a[0]] + a[1..] && b == [b[0]] + b[1..];
      }
    }
  }
}
