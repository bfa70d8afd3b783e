/**
 * Joining strings with a separator, as Python's `sep.join(parts)` and
 * JavaScript's `parts.join(sep)` both do, and the flattening of a sequence
 * of sequences. Every join in the application (the space-joined chunks, the
 * blank-line-separated retrieval context, the comma-separated error and
 * source lists, the newline-joined DOCX paragraphs, the concatenated PDF
 * pages) is an instance of `JoinWith`.
 */
module Strings {

  /** The sum of the lengths of the parts. */
  function TotalLength(parts: seq<string>): nat
  {
    if |parts| == 0 then 0 else TotalLength(parts[..|parts| - 1]) + |parts[|parts| - 1]|
  }

  /** The parts with `sep` between each adjacent pair; "" for no parts. */
  function JoinWith(sep: string, parts: seq<string>): (r: string)
    ensures |parts| == 0 ==> r == ""
    ensures |parts| == 1 ==> r == parts[0]
  {
    if |parts| == 0 then ""
    else if |parts| == 1 then parts[0]
    else JoinWith(sep, parts[..|parts| - 1]) + sep + parts[|parts| - 1]
  }

  /** The length of a join: the parts' lengths plus one separator per gap. */
  lemma {:induction false} JoinLength(sep: string, parts: seq<string>)
    requires |parts| > 0
    ensures |JoinWith(sep, parts)| == TotalLength(parts) + |sep| * (|parts| - 1)
  {
    var n := |parts|;
    if n > 1 {
      JoinLength(sep, parts[..n - 1]);
      assert |sep| * (n - 1) == |sep| * (n - 2) + |sep|;
    }
  }

  /** A join is at least as long as any of its parts. */
  lemma {:induction false} JoinLongerThanPart(sep: string, parts: seq<string>, i: nat)
    requires i < |parts|
    ensures |JoinWith(sep, parts)| >= |parts[i]|
  {
    var n := |parts|;
    if i < n - 1 {
      JoinLongerThanPart(sep, parts[..n - 1], i);
    }
  }

  /** Where part `i` starts inside `JoinWith(sep, parts)`: after the first `i` parts and a separator. */
  function Offset(sep: string, parts: seq<string>, i: nat): nat
    requires i <= |parts|
  {
    if i == 0 then 0 else |JoinWith(sep, parts[..i])| + |sep|
  }

  /**
   * The layout of a join: part `i` sits at `Offset(sep, parts, i)`, and is
   * followed by `sep` unless it is the last part. So a join holds every
   * part, once, in order, with exactly one separator between neighbours.
   */
  lemma {:induction false} JoinLayout(sep: string, parts: seq<string>, i: nat)
    requires i < |parts|
    ensures Offset(sep, parts, i) + |parts[i]| <= |JoinWith(sep, parts)|
    ensures JoinWith(sep, parts)[Offset(sep, parts, i)..Offset(sep, parts, i) + |parts[i]|] == parts[i]
    ensures i + 1 < |parts| ==>
      Offset(sep, parts, i) + |parts[i]| + |sep| <= |JoinWith(sep, parts)| &&
      JoinWith(sep, parts)[Offset(sep, parts, i) + |parts[i]|..Offset(sep, parts, i) + |parts[i]| + |sep|] == sep
  {
    if |parts| == 1 {
    } else if i == |parts| - 1 {
      JoinLayoutLast(sep, parts);
    } else {
      var n := |parts|;
      var init := parts[..n - 1];
      JoinLayout(sep, init, i);
      JoinLayoutEarlier(sep, parts, i);
    }
  }

  /** The last part ends the join. */
  lemma JoinLayoutLast(sep: string, parts: seq<string>)
    requires |parts| > 0
    ensures var o := Offset(sep, parts, |parts| - 1);
      o + |parts[|parts| - 1]| == |JoinWith(sep, parts)| &&
      JoinWith(sep, parts)[o..] == parts[|parts| - 1]
  {
    var n := |parts|;
    if n > 1 {
      assert JoinWith(sep, parts) == JoinWith(sep, parts[..n - 1]) + sep + parts[n - 1];
    }
  }

  /** The step of `JoinLayout` from all parts but the last to all parts. */
  lemma JoinLayoutEarlier(sep: string, parts: seq<string>, i: nat)
    requires i + 1 < |parts|
    requires var init := parts[..|parts| - 1];
      Offset(sep, init, i) + |init[i]| <= |JoinWith(sep, init)| &&
      JoinWith(sep, init)[Offset(sep, init, i)..Offset(sep, init, i) + |init[i]|] == init[i] &&
      (i + 1 < |init| ==>
        Offset(sep, init, i) + |init[i]| + |sep| <= |JoinWith(sep, init)| &&
        JoinWith(sep, init)[Offset(sep, init, i) + |init[i]|..Offset(sep, init, i) + |init[i]| + |sep|] == sep)
    ensures Offset(sep, parts, i) + |parts[i]| + |sep| <= |JoinWith(sep, parts)|
    ensures JoinWith(sep, parts)[Offset(sep, parts, i)..Offset(sep, parts, i) + |parts[i]|] == parts[i]
    ensures JoinWith(sep, parts)[Offset(sep, parts, i) + |parts[i]|..Offset(sep, parts, i) + |parts[i]| + |sep|] == sep
  {
    var n := |parts|;
    var init := parts[..n - 1];
    var left := JoinWith(sep, init);
    var r := JoinWith(sep, parts);
    assert r == left + sep + parts[n - 1];
    assert init[i] == parts[i];
    var o := Offset(sep, parts, i);
    if i > 0 {
      assert parts[..i] == init[..i];
    }
    assert o == Offset(sep, init, i);
    var e := o + |parts[i]|;
    SliceOfFront(left, sep + parts[n - 1], o, e);
    AppendAssoc(left, sep, parts[n - 1]);
    if i + 1 == n - 1 {
      JoinLayoutLast(sep, init);
      SliceMiddle(left, sep, parts[n - 1]);
    } else {
      SliceOfFront(left, sep + parts[n - 1], e, e + |sep|);
    }
  }

  /** A slice inside the front of a concatenation is a slice of the front. */
  lemma SliceOfFront<T>(a: seq<T>, b: seq<T>, lo: nat, hi: nat)
    requires lo <= hi <= |a|
    ensures (a + b)[lo..hi] == a[lo..hi]
  {
  }

  /** The middle of three concatenated sequences, recovered by slicing. */
  lemma SliceMiddle<T>(a: seq<T>, b: seq<T>, c: seq<T>)
    ensures (a + b + c)[|a|..|a| + |b|] == b
  {
  }

  /** Appending one part appends a separator and the part. */
  lemma JoinAppend(sep: string, parts: seq<string>, p: string)
    requires |parts| > 0
    ensures JoinWith(sep, parts + [p]) == JoinWith(sep, parts) + sep + p
  {
    assert (parts + [p])[..|parts|] == parts;
  }

  /** Joining two non-empty runs of parts: the two joins with one separator between. */
  lemma {:induction false} JoinConcat(sep: string, a: seq<string>, b: seq<string>)
    requires |a| > 0 && |b| > 0
    ensures JoinWith(sep, a + b) == JoinWith(sep, a) + sep + JoinWith(sep, b)
  {
    if |b| == 1 {
      JoinAppend(sep, a, b[0]);
      assert a + b == a + [b[0]];
    } else {
      var init := b[..|b| - 1];
      var last := b[|b| - 1];
      assert b == init + [last];
      assert a + b == (a + init) + [last];
      JoinConcat(sep, a, init);
      JoinAppend(sep, a + init, last);
      JoinAppend(sep, init, last);
    }
  }

  /** Joining a first part in front of a non-empty run. */
  lemma JoinPrepend(sep: string, p: string, parts: seq<string>)
    requires |parts| > 0
    ensures JoinWith(sep, [p] + parts) == p + sep + JoinWith(sep, parts)
  {
    JoinConcat(sep, [p], parts);
  }

  /** Concatenation is associative. */
  lemma AppendAssoc<T>(a: seq<T>, b: seq<T>, c: seq<T>)
    ensures a + (b + c) == a + b + c
  {
  }

  /** The sequences one after another (Python's list extension, repeated). */
  function Concat<T>(groups: seq<seq<T>>): seq<T>
  {
    if |groups| == 0 then [] else Concat(groups[..|groups| - 1]) + groups[|groups| - 1]
  }

  /** The join of each group, group by group. */
  function JoinEach(sep: string, groups: seq<seq<string>>): (r: seq<string>)
    ensures |r| == |groups|
    ensures forall i :: 0 <= i < |groups| ==> r[i] == JoinWith(sep, groups[i])
  {
    if |groups| == 0 then [] else JoinEach(sep, groups[..|groups| - 1]) + [JoinWith(sep, groups[|groups| - 1])]
  }

  /**
   * Joining the joins of non-empty groups is joining the flattened groups:
   * the grouping leaves no trace in the joined text.
   */
  lemma {:induction false} JoinFlatten(sep: string, groups: seq<seq<string>>)
    requires forall i :: 0 <= i < |groups| ==> |groups[i]| > 0
    ensures JoinWith(sep, JoinEach(sep, groups)) == JoinWith(sep, Concat(groups))
  {
    var n := |groups|;
    if n == 0 {
    } else if n == 1 {
      assert groups[..0] == [];
      assert Concat(groups) == groups[0];
    } else {
      var init := groups[..n - 1];
      var last := groups[n - 1];
      JoinFlatten(sep, init);
      assert JoinEach(sep, groups) == JoinEach(sep, init) + [JoinWith(sep, last)];
      JoinAppend(sep, JoinEach(sep, init), JoinWith(sep, last));
      assert init[..n - 2] + [init[n - 2]] == init;
      assert |Concat(init)| > 0;
      JoinConcat(sep, Concat(init), last);
    }
  }
}
