/**
 * Sequence helpers shared by the bot's builders: running sums, string joining
 * and splitting as Python's `str.join` / `str.split(sep)` do them, and the
 * stable descending sort that Python's `sorted(..., reverse=True)` performs.
 */
module Seqs {
  import opened Wrappers

  /** Sum of `f` over `s`, accumulated from the first element to the last, as a running total is. */
  function SumBy<T>(s: seq<T>, f: T -> real): real
  {
    if s == [] then 0.0 else SumBy(s[..|s| - 1], f) + f(s[|s| - 1])
  }

  lemma {:induction false} SumByAppend<T>(a: seq<T>, b: seq<T>, f: T -> real)
    ensures SumBy(a + b, f) == SumBy(a, f) + SumBy(b, f)
    decreases |b|
  {
    if b == [] {
      assert a + b == a;
    } else {
      var b' := b[..|b| - 1];
      assert (a + b)[..|a + b| - 1] == a + b';
      SumByAppend(a, b', f);
    }
  }

  /** A running sum over a prefix grows by the next element. */
  lemma SumByStep<T>(s: seq<T>, i: nat, f: T -> real)
    requires i < |s|
    ensures SumBy(s[..i + 1], f) == SumBy(s[..i], f) + f(s[i])
  {
    var q := s[..i + 1];
    assert q[..|q| - 1] == s[..i];
  }

  lemma SumByCons<T>(x: T, s: seq<T>, f: T -> real)
    ensures SumBy([x] + s, f) == f(x) + SumBy(s, f)
  {
    SumByAppend([x], s, f);
    assert [x][..0] == [];
  }

  lemma PrefixWhole<T>(s: seq<T>)
    ensures s[..|s|] == s
  {
  }

  /** The pieces of `s` between the occurrences of `sep`, as Python's `s.split(sep)`. */
  function Split(s: string, sep: char): (r: seq<string>)
    ensures |r| >= 1
  {
    if s == [] then [""]
    else
      var rest := Split(s[1..], sep);
      if s[0] == sep then [""] + rest
      else [[s[0]] + rest[0]] + rest[1..]
  }

  /** Python's `sep.join(parts)`. */
  function Join(parts: seq<string>, sep: string): string
  {
    if parts == [] then ""
    else if |parts| == 1 then parts[0]
    else parts[0] + sep + Join(parts[1..], sep)
  }

  lemma {:induction false} SplitNoSep(s: string, sep: char)
    requires sep !in s
    ensures Split(s, sep) == [s]
  {
    if s != [] {
      SplitNoSep(s[1..], sep);
      assert [s[0]] + s[1..] == s;
    }
  }

  /** Joining the pieces of a split with the same separator rebuilds the text. */
  lemma {:induction false} JoinSplit(s: string, sep: char)
    ensures Join(Split(s, sep), [sep]) == s
  {
    if s != [] {
      var rest := Split(s[1..], sep);
      JoinSplit(s[1..], sep);
      if s[0] == sep {
        assert ([""] + rest)[1..] == rest;
      } else if |rest| == 1 {
      } else {
        var r := [[s[0]] + rest[0]] + rest[1..];
        assert r[1..] == rest[1..];
        assert [s[0]] + s[1..] == s;
      }
    }
  }

  /** Splitting at the first separator peels off the text before it. */
  lemma {:induction false} SplitAt(a: string, b: string, sep: char)
    requires sep !in a
    ensures Split(a + [sep] + b, sep) == [a] + Split(b, sep)
  {
    if a == [] {
      assert a + [sep] + b == [sep] + b;
      assert ([sep] + b)[1..] == b;
    } else {
      var s := a + [sep] + b;
      assert s[0] == a[0];
      assert s[1..] == a[1..] + [sep] + b;
      SplitAt(a[1..], b, sep);
      assert [a[0]] + a[1..] == a;
    }
  }

  /** Splitting a joined list of separator-free, non-empty-list pieces gives the pieces back. */
  lemma {:induction false} SplitJoin(parts: seq<string>, sep: char)
    requires |parts| >= 1
    requires forall i :: 0 <= i < |parts| ==> sep !in parts[i]
    ensures Split(Join(parts, [sep]), sep) == parts
  {
    if |parts| == 1 {
      SplitNoSep(parts[0], sep);
    } else {
      SplitJoin(parts[1..], sep);
      SplitAt(parts[0], Join(parts[1..], [sep]), sep);
      assert [parts[0]] + parts[1..] == parts;
    }
  }

  /** `f` applied to each element of `s`, in order. */
  function MapSeq<T, U>(s: seq<T>, f: T --> U): (r: seq<U>)
    requires forall i :: 0 <= i < |s| ==> f.requires(s[i])
    ensures |r| == |s| && forall i :: 0 <= i < |s| ==> r[i] == f(s[i])
  {
    if s == [] then [] else MapSeq(s[..|s| - 1], f) + [f(s[|s| - 1])]
  }

  lemma MapSeqStep<T, U>(s: seq<T>, i: nat, f: T -> U)
    requires i < |s|
    ensures MapSeq(s[..i + 1], f) == MapSeq(s[..i], f) + [f(s[i])]
  {
    var q := s[..i + 1];
    assert q[..|q| - 1] == s[..i] && q[|q| - 1] == s[i];
  }

  /** One more mapped line, then a separator: the terminated text grows by that line. */
  lemma TerminatedMapStep<T>(head: seq<string>, s: seq<T>, i: nat, f: T -> string, sep: char)
    requires i < |s|
    ensures Terminated(head + MapSeq(s[..i + 1], f), sep) == Terminated(head + MapSeq(s[..i], f), sep) + f(s[i]) + [sep]
  {
    MapSeqStep(s, i, f);
    var ls, l := MapSeq(s[..i], f), f(s[i]);
    assert head + (ls + [l]) == (head + ls) + [l];
    TerminatedSnoc(head + ls, l, sep);
  }

  /** `f` applied to each element in order, or `None` as soon as one application gives `None`. */
  function MapAll<T, U>(s: seq<T>, f: T -> Option<U>): Option<seq<U>>
  {
    if s == [] then Some([])
    else
      match MapAll(s[..|s| - 1], f)
      case None => None
      case Some(init) =>
        match f(s[|s| - 1])
        case None => None
        case Some(y) => Some(init + [y])
  }

  /** One more element that maps: the result grows by its image. */
  lemma MapAllStep<T, U>(s: seq<T>, i: nat, f: T -> Option<U>)
    requires i < |s| && MapAll(s[..i], f).Some? && f(s[i]).Some?
    ensures MapAll(s[..i + 1], f) == Some(MapAll(s[..i], f).value + [f(s[i]).value])
  {
    var q := s[..i + 1];
    assert q[..|q| - 1] == s[..i] && q[|q| - 1] == s[i];
  }

  /** One more mapped line, then a separator: the terminated text grows by that line. */
  lemma TerminatedMapAllStep<T>(head: seq<string>, s: seq<T>, i: nat, f: T -> Option<string>, sep: char)
    requires i < |s| && MapAll(s[..i], f).Some? && f(s[i]).Some?
    ensures MapAll(s[..i + 1], f).Some?
    ensures Terminated(head + MapAll(s[..i + 1], f).value, sep)
         == Terminated(head + MapAll(s[..i], f).value, sep) + f(s[i]).value + [sep]
  {
    MapAllStep(s, i, f);
    var ls, l := MapAll(s[..i], f).value, f(s[i]).value;
    assert head + (ls + [l]) == (head + ls) + [l];
    TerminatedSnoc(head + ls, l, sep);
  }

  /** One element that does not map spoils the whole result. */
  lemma {:induction false} MapAllFails<T, U>(s: seq<T>, i: nat, f: T -> Option<U>)
    requires i < |s| && f(s[i]).None?
    ensures MapAll(s, f).None?
    decreases |s|
  {
    if i < |s| - 1 {
      var init := s[..|s| - 1];
      assert init[i] == s[i];
      MapAllFails(init, i, f);
    }
  }

  /** The result exists exactly when every element maps, and then it is the images in order. */
  lemma {:induction false} MapAllSpec<T, U>(s: seq<T>, f: T -> Option<U>)
    ensures MapAll(s, f).Some? <==> forall i :: 0 <= i < |s| ==> f(s[i]).Some?
    ensures MapAll(s, f).Some? ==>
      |MapAll(s, f).value| == |s| && forall i :: 0 <= i < |s| ==> MapAll(s, f).value[i] == f(s[i]).value
  {
    if s != [] {
      var init := s[..|s| - 1];
      MapAllSpec(init, f);
      assert forall i :: 0 <= i < |init| ==> init[i] == s[i];
      if MapAll(init, f).None? {
        var i :| 0 <= i < |init| && f(init[i]).None?;
        MapAllFails(s, i, f);
      }
    }
  }

  /** The lines `ls`, each followed by `sep`, as a message built line by line is. */
  function Terminated(ls: seq<string>, sep: char): string
  {
    if ls == [] then "" else Terminated(ls[..|ls| - 1], sep) + ls[|ls| - 1] + [sep]
  }

  /** Splitting separator-terminated lines followed by `tail` gives the lines, then the pieces of `tail`. */
  lemma {:induction false} SplitTerminated(ls: seq<string>, tail: string, sep: char)
    requires forall i :: 0 <= i < |ls| ==> sep !in ls[i]
    ensures Split(Terminated(ls, sep) + tail, sep) == ls + Split(tail, sep)
    decreases |ls|
  {
    if ls == [] {
      assert Terminated(ls, sep) + tail == tail;
    } else {
      var init, last := ls[..|ls| - 1], ls[|ls| - 1];
      calc {
        Split(Terminated(ls, sep) + tail, sep);
        { TerminatedLast(ls, tail, sep); }
        Split(Terminated(init, sep) + (last + [sep] + tail), sep);
        { SplitTerminated(init, last + [sep] + tail, sep); }
        init + Split(last + [sep] + tail, sep);
        { SplitAt(last, tail, sep); }
        init + ([last] + Split(tail, sep));
        { assert init + [last] == ls; }
        ls + Split(tail, sep);
      }
    }
  }

  /** Terminated lines, one more separator and a last line split into the lines, an empty piece and the last line. */
  lemma SplitTerminatedLast(ls: seq<string>, last: string, sep: char)
    requires forall i :: 0 <= i < |ls| ==> sep !in ls[i]
    requires sep !in last
    ensures Split(Terminated(ls, sep) + [sep] + last, sep) == ls + ["", last]
  {
    var t := Terminated(ls, sep);
    calc {
      Split(t + [sep] + last, sep);
      { AppendAssoc(t, [sep], last); }
      Split(t + ([sep] + last), sep);
      { SplitTerminated(ls, [sep] + last, sep); }
      ls + Split([sep] + last, sep);
      { SplitLeadingSep(last, sep); }
      ls + ["", last];
    }
  }

  lemma AppendAssoc<T>(a: seq<T>, b: seq<T>, c: seq<T>)
    ensures a + b + c == a + (b + c)
  {
  }

  /** A separator and then separator-free text split into an empty piece and that text. */
  lemma SplitLeadingSep(last: string, sep: char)
    requires sep !in last
    ensures Split([sep] + last, sep) == ["", last]
  {
    assert ([sep] + last)[1..] == last;
    SplitNoSep(last, sep);
  }

  lemma TerminatedSnoc(ls: seq<string>, l: string, sep: char)
    ensures Terminated(ls + [l], sep) == Terminated(ls, sep) + l + [sep]
  {
    assert (ls + [l])[..|ls|] == ls;
  }

  lemma TerminatedThree(a: string, b: string, c: string, rest: string, sep: char)
    ensures Terminated([a, b, c], sep) + rest == a + [sep] + b + [sep] + c + [sep] + rest
  {
    assert Terminated([a], sep) == a + [sep] by {
      assert [a][..0] == [];
    }
    assert Terminated([a, b], sep) == a + [sep] + b + [sep] by {
      assert [a, b][..1] == [a];
    }
    assert [a, b, c][..2] == [a, b];
  }

  lemma TerminatedLast(ls: seq<string>, tail: string, sep: char)
    requires ls != []
    ensures Terminated(ls, sep) + tail == Terminated(ls[..|ls| - 1], sep) + (ls[|ls| - 1] + [sep] + tail)
  {
  }

  /** Every adjacent or distant pair of `s` is in non-increasing order of `key`. */
  predicate SortedDesc<T>(s: seq<T>, key: T -> real)
  {
    forall i, j :: 0 <= i < j < |s| ==> key(s[i]) >= key(s[j])
  }

  /** Distinct elements of `s` have distinct images under `g`. */
  predicate DistinctBy<T, U(==)>(s: seq<T>, g: T -> U)
  {
    forall i, j :: 0 <= i < j < |s| ==> g(s[i]) != g(s[j])
  }

  /** Inserts `x` in front of the first element whose key is not above `x`'s. */
  function InsertDesc<T>(x: T, s: seq<T>, key: T -> real): (r: seq<T>)
    ensures |r| == |s| + 1
    ensures multiset(r) == multiset(s) + multiset{x}
  {
    if s == [] || key(s[0]) <= key(x) then [x] + s
    else
      assert s == [s[0]] + s[1..];
      [s[0]] + InsertDesc(x, s[1..], key)
  }

  /** Stable sort in non-increasing order of `key`: equal keys keep their input order. */
  function SortDesc<T>(s: seq<T>, key: T -> real): (r: seq<T>)
    ensures |r| == |s|
    ensures multiset(r) == multiset(s)
  {
    if s == [] then []
    else
      assert s == [s[0]] + s[1..];
      InsertDesc(s[0], SortDesc(s[1..], key), key)
  }

  /** A property every element of `s` and `x` has, every element of the insertion has. */
  lemma {:induction false} InsertDescAll<T>(x: T, s: seq<T>, key: T -> real, p: T -> bool)
    requires p(x) && forall k :: 0 <= k < |s| ==> p(s[k])
    ensures forall j :: 0 <= j < |InsertDesc(x, s, key)| ==> p(InsertDesc(x, s, key)[j])
  {
    if s != [] && key(s[0]) > key(x) {
      InsertDescAll(x, s[1..], key, p);
    }
  }

  lemma {:induction false} InsertDescSorted<T>(x: T, s: seq<T>, key: T -> real)
    requires SortedDesc(s, key)
    ensures SortedDesc(InsertDesc(x, s, key), key)
  {
    if s != [] && key(s[0]) > key(x) {
      var top := key(s[0]);
      InsertDescSorted(x, s[1..], key);
      InsertDescAll(x, s[1..], key, y => key(y) <= top);
    }
  }

  /** The sort's result is in non-increasing order of `key`. */
  lemma {:induction false} SortDescSorted<T>(s: seq<T>, key: T -> real)
    ensures SortedDesc(SortDesc(s, key), key)
  {
    if s != [] {
      SortDescSorted(s[1..], key);
      InsertDescSorted(s[0], SortDesc(s[1..], key), key);
    }
  }

  /** The elements of `s` whose key is `v`, in their order in `s`. */
  function KeepKey<T>(s: seq<T>, key: T -> real, v: real): seq<T>
  {
    if s == [] then [] else (if key(s[0]) == v then [s[0]] else []) + KeepKey(s[1..], key, v)
  }

  lemma {:induction false} InsertDescKeepKey<T>(x: T, s: seq<T>, key: T -> real, v: real)
    ensures KeepKey(InsertDesc(x, s, key), key, v) == (if key(x) == v then [x] else []) + KeepKey(s, key, v)
  {
    if s == [] || key(s[0]) <= key(x) {
      var r := [x] + s;
      assert r[0] == x && r[1..] == s;
    } else {
      var r := [s[0]] + InsertDesc(x, s[1..], key);
      assert r[0] == s[0] && r[1..] == InsertDesc(x, s[1..], key);
      InsertDescKeepKey(x, s[1..], key, v);
    }
  }

  /**
   * Stability: for every key value, the elements carrying it appear in the
   * sorted result in exactly the order they had in the input.
   */
  lemma {:induction false} SortDescStable<T>(s: seq<T>, key: T -> real, v: real)
    ensures KeepKey(SortDesc(s, key), key, v) == KeepKey(s, key, v)
  {
    if s != [] {
      SortDescStable(s[1..], key, v);
      InsertDescKeepKey(s[0], SortDesc(s[1..], key), key, v);
    }
  }

  lemma {:induction false} InsertDescSum<T>(x: T, s: seq<T>, key: T -> real, f: T -> real)
    ensures SumBy(InsertDesc(x, s, key), f) == f(x) + SumBy(s, f)
  {
    if s == [] || key(s[0]) <= key(x) {
      SumByCons(x, s, f);
    } else {
      InsertDescSum(x, s[1..], key, f);
      SumByCons(s[0], InsertDesc(x, s[1..], key), f);
      SumByCons(s[0], s[1..], f);
      assert [s[0]] + s[1..] == s;
    }
  }

  /** Reordering by the sort changes no sum over the elements. */
  lemma {:induction false} SortDescSum<T>(s: seq<T>, key: T -> real, f: T -> real)
    ensures SumBy(SortDesc(s, key), f) == SumBy(s, f)
  {
    if s != [] {
      var t := SortDesc(s[1..], key);
      calc {
        SumBy(SortDesc(s, key), f);
        SumBy(InsertDesc(s[0], t, key), f);
        { InsertDescSum(s[0], t, key, f); }
        f(s[0]) + SumBy(t, f);
        { SortDescSum(s[1..], key, f); }
        f(s[0]) + SumBy(s[1..], f);
        { SumByCons(s[0], s[1..], f); assert [s[0]] + s[1..] == s; }
        SumBy(s, f);
      }
    }
  }

  lemma {:induction false} InsertDescDistinct<T, U>(x: T, s: seq<T>, key: T -> real, g: T -> U)
    requires DistinctBy(s, g)
    requires forall k :: 0 <= k < |s| ==> g(s[k]) != g(x)
    ensures DistinctBy(InsertDesc(x, s, key), g)
  {
    if s != [] && key(s[0]) > key(x) {
      var v := g(s[0]);
      InsertDescDistinct(x, s[1..], key, g);
      InsertDescAll(x, s[1..], key, y => g(y) != v);
    }
  }

  /** The sort neither adds nor drops an element. */
  lemma SortDescMember<T>(s: seq<T>, key: T -> real, x: T)
    ensures x in SortDesc(s, key) <==> x in s
  {
    assert x in multiset(SortDesc(s, key)) <==> x in multiset(s);
  }

  /** A property every element of `s` has, every element of the sorted result has. */
  lemma {:induction false} SortDescAll<T>(s: seq<T>, key: T -> real, p: T -> bool)
    requires forall k :: 0 <= k < |s| ==> p(s[k])
    ensures forall j :: 0 <= j < |SortDesc(s, key)| ==> p(SortDesc(s, key)[j])
  {
    if s != [] {
      SortDescAll(s[1..], key, p);
      InsertDescAll(s[0], SortDesc(s[1..], key), key, p);
    }
  }

  /** Sorting keeps distinct images distinct: nothing is duplicated. */
  lemma {:induction false} SortDescDistinct<T, U>(s: seq<T>, key: T -> real, g: T -> U)
    requires DistinctBy(s, g)
    ensures DistinctBy(SortDesc(s, key), g)
  {
    if s != [] {
      var v := g(s[0]);
      SortDescDistinct(s[1..], key, g);
      SortDescAll(s[1..], key, y => g(y) != v);
      InsertDescDistinct(s[0], SortDesc(s[1..], key), key, g);
    }
  }
}
