// Python string operations the netlist code relies on: `str.replace`,
// the `in` substring test, `rsplit("/", 1)`, `split("/")`, the start
// offsets of `re.finditer` on a literal pattern, and `str.upper`.

module Text {

  import opened Wrappers

  /** `pat` occurs in `s` starting at offset `i`. */
  predicate OccursAt(s: string, pat: string, i: int)
  {
    0 <= i && i + |pat| <= |s| && s[i..i + |pat|] == pat
  }

  /** Python's `pat in s`. */
  predicate Contains(s: string, pat: string)
    decreases |s|
  {
    OccursAt(s, pat, 0) || (|s| > 0 && Contains(s[1..], pat))
  }

  lemma {:induction false} ContainsShift(s: string, pat: string, i: int)
    requires OccursAt(s, pat, i)
    ensures Contains(s, pat)
    decreases i
  {
    if i > 0 {
      assert OccursAt(s[1..], pat, i - 1) by {
        assert s[1..][i - 1..i - 1 + |pat|] == s[i..i + |pat|];
      }
      ContainsShift(s[1..], pat, i - 1);
    }
  }

  lemma {:induction false} ContainsWitness(s: string, pat: string) returns (i: int)
    requires Contains(s, pat)
    ensures OccursAt(s, pat, i)
    decreases |s|
  {
    if OccursAt(s, pat, 0) {
      i := 0;
    } else {
      var j := ContainsWitness(s[1..], pat);
      assert s[1..][j..j + |pat|] == s[j + 1..j + 1 + |pat|];
      i := j + 1;
    }
  }

  /**
   * Python's `s.replace(pat, rep)` for a non-empty pattern: occurrences
   * are replaced left to right and never overlap.
   */
  function Replace(s: string, pat: string, rep: string): (r: string)
    requires |pat| > 0
    ensures !Contains(s, pat) ==> r == s
    decreases |s|
  {
    if |s| < |pat| then s
    else if s[..|pat|] == pat then rep + Replace(s[|pat|..], pat, rep)
    else [s[0]] + Replace(s[1..], pat, rep)
  }

  /** Python's `s[:-1]`: the last character dropped, "" stays "". */
  function DropLast(s: string): (r: string)
    ensures |s| > 0 ==> |r| == |s| - 1 && r == s[..|s| - 1]
    ensures |s| == 0 ==> r == s
  {
    if |s| == 0 then s else s[..|s| - 1]
  }

  /**
   * Start offsets, from offset `i` on, of the non-overlapping matches
   * that `re.finditer` reports for a pattern made of literal characters.
   */
  function FindAllFrom(s: string, pat: string, i: nat): (r: seq<int>)
    requires |pat| > 0
    ensures forall k :: 0 <= k < |r| ==> OccursAt(s, pat, r[k]) && i <= r[k]
    ensures forall k, l :: 0 <= k < l < |r| ==> r[k] + |pat| <= r[l]
    decreases |s| - i
  {
    if i + |pat| > |s| then []
    else if s[i..i + |pat|] == pat then [i] + FindAllFrom(s, pat, i + |pat|)
    else FindAllFrom(s, pat, i + 1)
  }

  /** `[m.start() for m in re.finditer(pat, s)]`. */
  function FindAll(s: string, pat: string): (r: seq<int>)
    requires |pat| > 0
    ensures forall k :: 0 <= k < |r| ==> OccursAt(s, pat, r[k])
    ensures forall k, l :: 0 <= k < l < |r| ==> r[k] < r[l]
  {
    FindAllFrom(s, pat, 0)
  }

  /** An empty result from `i` on means `pat` occurs nowhere at or after `i`. */
  lemma {:induction false} FindAllFromEmpty(s: string, pat: string, i: nat)
    requires |pat| > 0
    requires FindAllFrom(s, pat, i) == []
    ensures forall j :: i <= j ==> !OccursAt(s, pat, j)
    decreases |s| - i
  {
    if i + |pat| > |s| {
    } else if s[i..i + |pat|] == pat {
      assert false;
    } else {
      FindAllFromEmpty(s, pat, i + 1);
    }
  }

  /** No proper suffix of `pat` is also a prefix of it, so two occurrences never overlap. */
  predicate NoSelfOverlap(pat: string)
  {
    forall d :: 0 < d < |pat| ==> pat[d..] != pat[..|pat| - d]
  }

  /**
   * For a pattern that cannot overlap itself, every occurrence at or after
   * `i` is reported: the non-overlapping scan misses none.
   */
  lemma {:induction false} FindAllFromComplete(s: string, pat: string, i: nat, j: int)
    requires |pat| > 0 && NoSelfOverlap(pat)
    requires i <= j && OccursAt(s, pat, j)
    ensures j in FindAllFrom(s, pat, i)
    decreases |s| - i
  {
    if i + |pat| > |s| {
      assert false;
    } else if s[i..i + |pat|] == pat {
      if i < j < i + |pat| {
        OverlapAt(s, pat, i, j);
        assert false;
      } else if j != i {
        FindAllFromComplete(s, pat, i + |pat|, j);
      }
    } else {
      FindAllFromComplete(s, pat, i + 1, j);
    }
  }

  /** Two occurrences `d` apart make the last `|pat| - d` characters a prefix. */
  lemma OverlapAt(s: string, pat: string, i: int, j: int)
    requires OccursAt(s, pat, i) && OccursAt(s, pat, j) && i < j < i + |pat|
    ensures pat[j - i..] == pat[..|pat| - (j - i)]
  {
    assert pat[j - i..] == s[j..i + |pat|];
    assert s[j..i + |pat|] == pat[..|pat| - (j - i)];
  }

  /** Every occurrence of a pattern that cannot overlap itself is listed. */
  lemma FindAllComplete(s: string, pat: string, j: int)
    requires |pat| > 0 && NoSelfOverlap(pat)
    requires OccursAt(s, pat, j)
    ensures j in FindAll(s, pat)
  {
    FindAllFromComplete(s, pat, 0, j);
  }

  function LastIndexOf(s: string, c: char): (r: int)
    ensures -1 <= r < |s|
    ensures r >= 0 ==> s[r] == c
    ensures forall j :: r < j < |s| ==> s[j] != c
  {
    if |s| == 0 then -1
    else if s[|s| - 1] == c then |s| - 1
    else LastIndexOf(s[..|s| - 1], c)
  }

  /** `s.split("/")[-1]`: the text after the last '/', or `s` itself. */
  function LastSegment(s: string): (r: string)
    ensures '/' !in r
    ensures |r| <= |s|
    ensures r == s[|s| - |r|..]
    ensures '/' !in s ==> r == s
  {
    var k := LastIndexOf(s, '/');
    s[k + 1..]
  }

  /**
   * `s.rsplit("/", 1)`: the part before the last '/' and, when there is a
   * '/', the part after it (`None` models the missing second element).
   */
  datatype Split = Split(head: string, tail: Option<string>)

  function RSplitLast(s: string): (r: Split)
    ensures r.tail.None? <==> '/' !in s
    ensures r.tail.None? ==> r.head == s
    ensures r.tail.Some? ==> r.head + "/" + r.tail.value == s
    ensures r.tail.Some? ==> r.tail.value == LastSegment(s)
  {
    var k := LastIndexOf(s, '/');
    if k < 0 then Split(s, None)
    else
      assert s[..k] + "/" + s[k + 1..] == s;
      Split(s[..k], Some(s[k + 1..]))
  }

  /** `s.split("/")`: the '/'-free pieces between the separators. */
  function Segments(s: string): (r: seq<string>)
    ensures |r| >= 1
    ensures r[|r| - 1] == LastSegment(s)
    ensures forall k :: 0 <= k < |r| ==> '/' !in r[k]
    decreases |s|
  {
    var k := LastIndexOf(s, '/');
    if k < 0 then [s]
    else Segments(s[..k]) + [s[k + 1..]]
  }

  /** `"/".join(segs)`. */
  function JoinSlash(segs: seq<string>): string
    requires |segs| >= 1
  {
    if |segs| == 1 then segs[0]
    else JoinSlash(segs[..|segs| - 1]) + "/" + segs[|segs| - 1]
  }

  /** The segments before the last are those of the part before the last '/'. */
  lemma SegmentsRSplit(s: string)
    requires '/' in s
    ensures Segments(s) == Segments(RSplitLast(s).head) + [RSplitLast(s).tail.value]
  {
  }

  /** Joining the segments with '/' gives back the name. */
  lemma {:induction false} SegmentsJoin(s: string)
    ensures JoinSlash(Segments(s)) == s
    decreases |s|
  {
    if '/' in s {
      var sp := RSplitLast(s);
      SegmentsRSplit(s);
      SegmentsJoin(sp.head);
      JoinSlashSnoc(Segments(sp.head), sp.tail.value);
    }
  }

  lemma JoinSlashSnoc(init: seq<string>, x: string)
    requires |init| >= 1
    ensures JoinSlash(init + [x]) == JoinSlash(init) + "/" + x
  {
    assert (init + [x])[..|init|] == init;
  }

  function UpperChar(c: char): (r: char)
    ensures 'a' <= c <= 'z' ==> 'A' <= r <= 'Z'
    ensures !('a' <= c <= 'z') ==> r == c
  {
    if 'a' <= c <= 'z' then (c as int - 32) as char else c
  }

  /** `s.upper()` restricted to the ASCII letters. */
  function Upper(s: string): (r: string)
    ensures |r| == |s|
    ensures forall k :: 0 <= k < |s| ==> r[k] == UpperChar(s[k])
  {
    seq(|s|, k requires 0 <= k < |s| => UpperChar(s[k]))
  }
}
