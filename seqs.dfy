/** First-match search, removal and update over sequences: the java.util.List
    operations (for-each search with early return, remove(Object), in-place
    update of a found element) that the inventory relies on. */
module Seqs {
  import opened Wrappers

  /** The index of the first element satisfying `p`, if any. */
  function FirstIndex<T>(s: seq<T>, p: T -> bool): (r: Option<nat>)
    ensures r.Some? ==> r.value < |s| && p(s[r.value])
    decreases |s|
  {
    if |s| == 0 then None
    else if p(s[0]) then Some(0)
    else match FirstIndex(s[1..], p)
      case None => None
      case Some(k) => Some(k + 1)
  }

  /** FirstIndex finds the first match: nothing before it matches, and it
      finds none only when no element matches. */
  lemma {:induction false} FirstIndexIsFirst<T>(s: seq<T>, p: T -> bool)
    ensures FirstIndex(s, p).Some? ==> forall j :: 0 <= j < FirstIndex(s, p).value ==> !p(s[j])
    ensures FirstIndex(s, p).None? <==> forall j :: 0 <= j < |s| ==> !p(s[j])
    decreases |s|
  {
    if |s| > 0 && !p(s[0]) {
      FirstIndexIsFirst(s[1..], p);
      assert forall j :: 1 <= j < |s| ==> s[j] == s[1..][j - 1];
    }
  }

  /** The first element satisfying `p`, if any. */
  function FindFirst<T>(s: seq<T>, p: T -> bool): (r: Option<T>)
    ensures r.None? <==> forall j :: 0 <= j < |s| ==> !p(s[j])
    ensures r.Some? ==> exists k :: 0 <= k < |s| && s[k] == r.value && p(s[k]) &&
                                    forall j :: 0 <= j < k ==> !p(s[j])
  {
    FirstIndexIsFirst(s, p);
    match FirstIndex(s, p)
    case None => None
    case Some(k) => Some(s[k])
  }

  /** The list after java.util.List.remove(Object): a scan that drops the first
      element satisfying `p` and keeps everything else in order. */
  function RemoveFirst<T>(s: seq<T>, p: T -> bool): (r: seq<T>)
    decreases |s|
  {
    if |s| == 0 then []
    else if p(s[0]) then s[1..]
    else [s[0]] + RemoveFirst(s[1..], p)
  }

  /** The list after the first element satisfying `p` is replaced by `f` of it. */
  function UpdateFirst<T>(s: seq<T>, p: T -> bool, f: T -> T): (r: seq<T>)
    decreases |s|
  {
    if |s| == 0 then []
    else if p(s[0]) then [f(s[0])] + s[1..]
    else [s[0]] + UpdateFirst(s[1..], p, f)
  }

  lemma {:induction false} RemoveFirstAt<T>(s: seq<T>, p: T -> bool)
    ensures FirstIndex(s, p).None? ==> RemoveFirst(s, p) == s
    ensures FirstIndex(s, p).Some? ==>
      var k := FirstIndex(s, p).value;
      RemoveFirst(s, p) == s[..k] + s[k + 1..]
    decreases |s|
  {
    if |s| == 0 {
    } else if p(s[0]) {
      assert s[..0] + s[1..] == s[1..];
    } else {
      var t := s[1..];
      RemoveFirstAt(t, p);
      var r := FirstIndex(t, p);
      assert RemoveFirst(s, p) == [s[0]] + RemoveFirst(t, p);
      if r.None? {
        assert FirstIndex(s, p).None?;
        assert [s[0]] + t == s;
      } else {
        var k := r.value;
        assert FirstIndex(s, p) == Some(k + 1);
        ConsSplice(s, k);
      }
    }
  }

  lemma ConsSplice<T>(s: seq<T>, k: nat)
    requires k + 1 < |s|
    ensures [s[0]] + (s[1..][..k] + s[1..][k + 1..]) == s[..k + 1] + s[k + 2..]
  {
    assert s[1..][..k] == s[1..k + 1];
    assert s[1..][k + 1..] == s[k + 2..];
    assert s[..k + 1] == [s[0]] + s[1..k + 1];
  }

  /** UpdateFirst changes exactly the element at FirstIndex, or nothing when
      no element matches. */
  lemma {:induction false} UpdateFirstAt<T>(s: seq<T>, p: T -> bool, f: T -> T)
    ensures FirstIndex(s, p).None? ==> UpdateFirst(s, p, f) == s
    ensures FirstIndex(s, p).Some? ==>
      var k := FirstIndex(s, p).value;
      UpdateFirst(s, p, f) == s[k := f(s[k])]
    decreases |s|
  {
    if |s| == 0 {
    } else if p(s[0]) {
      assert [f(s[0])] + s[1..] == s[0 := f(s[0])];
    } else {
      var t := s[1..];
      UpdateFirstAt(t, p, f);
      var r := FirstIndex(t, p);
      assert UpdateFirst(s, p, f) == [s[0]] + UpdateFirst(t, p, f);
      if r.None? {
        assert FirstIndex(s, p).None?;
        assert [s[0]] + t == s;
      } else {
        var k := r.value;
        assert FirstIndex(s, p) == Some(k + 1);
        assert [s[0]] + t[k := f(t[k])] == s[k + 1 := f(s[k + 1])];
      }
    }
  }

  /** A prefix one element longer is the prefix and that element. */
  lemma PrefixStep<T>(s: seq<T>, i: nat)
    requires i < |s|
    ensures s[..i + 1] == s[..i] + [s[i]]
  {
  }

  /** A prefix followed by the next slice is the longer prefix. */
  lemma PrefixJoin<T>(s: seq<T>, i: nat, j: nat)
    requires i <= j <= |s|
    ensures s[..i] + s[i..j] == s[..j]
  {
    assert s[..i] + s[i..j] == s[..j];
  }

  /** All elements of a sequence of sequences, one after another. */
  function Concat<T>(ss: seq<seq<T>>): (r: seq<T>)
    decreases |ss|
  {
    if |ss| == 0 then [] else ss[0] + Concat(ss[1..])
  }

  lemma {:induction false} ConcatAppend<T>(ss: seq<seq<T>>, t: seq<T>)
    ensures Concat(ss + [t]) == Concat(ss) + t
    decreases |ss|
  {
    if |ss| == 0 {
      assert ss + [t] == [t];
    } else {
      assert (ss + [t])[1..] == ss[1..] + [t];
      ConcatAppend(ss[1..], t);
    }
  }
}
