// The outcome of AttemptRecover: the newest 48 of what was there and the least
// closed set of what can be recovered, whatever the order of the FEC list.
module FecOutcome {
  import opened Bytes
  import opened SeqNum
  import opened FecEncoder
  import opened FecGenerator
  import opened FecDecoder
  import opened FecInvariant
  import opened FecAuthentic
  import opened Peeling

  // The unwrapped numbers of a list of live keys.
  ghost function Numbers(b: int, keys: seq<u16>): set<int> { set x | x in keys :: Unwrap(b, x) }

  ghost function NewNumbers(b: int, news: seq<RecoveredPacket>): set<int> { Numbers(b, Keys(news)) }

  // The keys stand for the newest of the given numbers, as many as fit.
  ghost predicate NewestOf(b: int, keys: seq<u16>, all: set<int>) {
    && Sorted(b, keys) && |keys| <= MAX_MEDIA_PACKETS && Numbers(b, keys) <= all
    && (|keys| < MAX_MEDIA_PACKETS ==> Numbers(b, keys) == all)
    && (forall u, x :: u in all && u !in Numbers(b, keys) && x in keys ==> u < Unwrap(b, x))
  }

  lemma NumbersOf(b: int, keys: seq<u16>, x: u16)
    requires AllLive(b, keys) && Live(b, x)
    ensures x in keys <==> Unwrap(b, x) in Numbers(b, keys)
  {
    if Unwrap(b, x) in Numbers(b, keys) {
      var y :| y in keys && Unwrap(b, y) == Unwrap(b, x);
    }
  }

  // Pushing one more key and dropping the oldest if there are too many.
  lemma PushKeepsNewest(b: int, keys: seq<u16>, all: set<int>, x: u16, pushed: seq<u16>, kept: seq<u16>)
    requires NewestOf(b, keys, all) && Live(b, x) && x !in keys
    requires var i := InsertAt(keys, x); pushed == keys[..i] + [x] + keys[i..]
    requires kept == if |pushed| > MAX_MEDIA_PACKETS then pushed[1..] else pushed
    ensures NewestOf(b, kept, all + {Unwrap(b, x)})
  {
    hide IsNewer, Live, InsertAt, Unwrap;
    InsertSorted(b, keys, x);
    SuffixSorted(b, pushed, 1);
    PushedNumbers(b, keys, x, pushed);
    var u := Unwrap(b, x);
    if |keys| < MAX_MEDIA_PACKETS {
      assert Numbers(b, kept) == all + {u};
    } else {
      assert pushed == [pushed[0]] + kept;
      forall v, y | v in all + {u} && v !in Numbers(b, kept) && y in kept
        ensures v < Unwrap(b, y)
      {
        OldestFirst(b, pushed, y);
        if v != Unwrap(b, pushed[0]) {
          assert v !in Numbers(b, pushed);
          assert v in all && v !in Numbers(b, keys);
          if pushed[0] !in keys {
            assert y in pushed && pushed[0] == x;
          }
        }
      }
    }
  }

  lemma PushedNumbers(b: int, keys: seq<u16>, x: u16, pushed: seq<u16>)
    requires exists i :: 0 <= i <= |keys| && pushed == keys[..i] + [x] + keys[i..]
    ensures Numbers(b, pushed) == Numbers(b, keys) + {Unwrap(b, x)}
  {
    hide Unwrap;
    var i :| 0 <= i <= |keys| && pushed == keys[..i] + [x] + keys[i..];
    assert keys == keys[..i] + keys[i..];
    assert forall y :: y in pushed <==> y in keys || y == x;
  }

  lemma OldestFirst(b: int, pushed: seq<u16>, y: u16)
    requires Sorted(b, pushed) && pushed != [] && y in pushed[1..]
    ensures Unwrap(b, pushed[0]) < Unwrap(b, y)
  {
    var j :| 1 <= j < |pushed| && pushed[j] == y;
    ComparatorsAgree(b, pushed[0], y);
  }

  // Recovering on leaves the newest of the old list and of everything recovered.
  lemma {:induction false} AttemptKeepsNewest(b: int, st: State, i: nat, all: set<int>)
    requires WellLinked(b, st) && i <= |st.fecs| && NewestOf(b, Keys(st.recovered), all)
    ensures NewestOf(b, Keys(Attempt(st, i).recovered), all + NewNumbers(b, News(st, i)))
    decreases |st.fecs|, |st.fecs| - i
  {
    hide WellLinked, NewestOf, Missing, Recover, Numbers, Unwrap, Live;
    if i == |st.fecs| {
      assert NewNumbers(b, []) == {} by { NoNumbers(b); }
      assert all + {} == all;
    } else if |Missing(st.fecs[i].protectedList)| == 1 {
      var r, next := Recover(st.fecs[i]), RecoverAt(st, i);
      RecoversMissing(b, st, i);
      RecoverAtLinked(b, st, i);
      PushSortedKeys(st.recovered, r);
      NewestKeys(PushSorted(st.recovered, r));
      NewestLength(b, st.recovered, all);
      PushKeepsNewest(b, Keys(st.recovered), all, r.seqNum, Keys(PushSorted(st.recovered, r)), Keys(next.recovered));
      AttemptKeepsNewest(b, next, 0, all + {Unwrap(b, r.seqNum)});
      NumbersCons(b, r, News(next, 0));
      assert all + {Unwrap(b, r.seqNum)} + NewNumbers(b, News(next, 0)) == all + NewNumbers(b, News(st, i));
    } else if |Missing(st.fecs[i].protectedList)| == 0 {
      WithoutLinked(b, st, i);
      AttemptKeepsNewest(b, st.(fecs := Without(st.fecs, i)), i, all);
    } else {
      AttemptKeepsNewest(b, st, i + 1, all);
    }
  }

  lemma NoNumbers(b: int)
    ensures NewNumbers(b, []) == {}
  {
  }

  lemma NewestLength(b: int, list: seq<RecoveredPacket>, all: set<int>)
    requires NewestOf(b, Keys(list), all)
    ensures |list| <= MAX_MEDIA_PACKETS
  {
  }

  lemma NumbersCons(b: int, r: RecoveredPacket, rest: seq<RecoveredPacket>)
    ensures NewNumbers(b, [r] + rest) == {Unwrap(b, r.seqNum)} + NewNumbers(b, rest)
  {
    hide Unwrap;
    assert Keys([r] + rest) == [r.seqNum] + Keys(rest);
  }

  // ---- A key list is determined by the numbers it is the newest of ---------------

  lemma {:induction false} NumbersCount(b: int, keys: seq<u16>)
    requires Sorted(b, keys)
    ensures |Numbers(b, keys)| == |keys|
  {
    if keys != [] {
      var rest := keys[1..];
      SuffixSorted(b, keys, 1);
      NumbersCount(b, rest);
      assert keys == [keys[0]] + rest;
      assert Numbers(b, keys) == {Unwrap(b, keys[0])} + Numbers(b, rest);
      if Unwrap(b, keys[0]) in Numbers(b, rest) {
        NumbersOf(b, rest, keys[0]);
      }
    }
  }

  lemma {:induction false} SortedUnique(b: int, keys1: seq<u16>, keys2: seq<u16>)
    requires Sorted(b, keys1) && Sorted(b, keys2) && Numbers(b, keys1) == Numbers(b, keys2)
    ensures keys1 == keys2
  {
    hide IsNewer, Live, Unwrap;
    NumbersCount(b, keys1);
    NumbersCount(b, keys2);
    if keys1 != [] {
      var r1, r2 := keys1[1..], keys2[1..];
      SuffixSorted(b, keys1, 1);
      SuffixSorted(b, keys2, 1);
      FirstIsLeast(b, keys1, keys2);
      FirstIsLeast(b, keys2, keys1);
      SameNumber(b, keys1[0], keys2[0]);
      RestNumbers(b, keys1);
      RestNumbers(b, keys2);
      SortedUnique(b, r1, r2);
    }
  }

  lemma SameNumber(b: int, x: u16, y: u16)
    requires Unwrap(b, x) == Unwrap(b, y)
    ensures x == y
  {
  }

  lemma FirstIsLeast(b: int, keys1: seq<u16>, keys2: seq<u16>)
    requires Sorted(b, keys1) && keys1 != [] && keys2 != [] && Numbers(b, keys2) <= Numbers(b, keys1)
    ensures Unwrap(b, keys1[0]) <= Unwrap(b, keys2[0])
  {
    hide IsNewer, Live, Unwrap;
    assert Unwrap(b, keys2[0]) in Numbers(b, keys2);
    var x :| x in keys1 && Unwrap(b, x) == Unwrap(b, keys2[0]);
    if x != keys1[0] {
      assert keys1 == [keys1[0]] + keys1[1..];
      OldestFirst(b, keys1, x);
    }
  }

  lemma RestNumbers(b: int, keys: seq<u16>)
    requires Sorted(b, keys) && keys != []
    ensures Numbers(b, keys[1..]) == Numbers(b, keys) - {Unwrap(b, keys[0])}
  {
    hide IsNewer, Live, Unwrap;
    assert keys == [keys[0]] + keys[1..];
    forall x | x in keys[1..]
      ensures Unwrap(b, x) != Unwrap(b, keys[0])
    {
      OldestFirst(b, keys, x);
    }
  }

  lemma SubsetSize(a: set<int>, b: set<int>)
    requires a <= b && |a| == |b|
    ensures a == b
  {
    assert b == a + (b - a);
    assert |b - a| == |b| - |a|;
  }

  lemma NewestNested(b: int, keys1: seq<u16>, keys2: seq<u16>, all: set<int>)
    requires NewestOf(b, keys1, all) && NewestOf(b, keys2, all)
    ensures Numbers(b, keys1) <= Numbers(b, keys2) || Numbers(b, keys2) <= Numbers(b, keys1)
  {
    hide IsNewer, Live, Unwrap;
    if !(Numbers(b, keys1) <= Numbers(b, keys2)) {
      var u :| u in Numbers(b, keys1) && u !in Numbers(b, keys2);
      var x :| x in keys1 && Unwrap(b, x) == u;
      forall v | v in Numbers(b, keys2)
        ensures v in Numbers(b, keys1)
      {
        var y :| y in keys2 && Unwrap(b, y) == v;
        assert u < v;
      }
    }
  }

  lemma NewestUnique(b: int, keys1: seq<u16>, keys2: seq<u16>, all: set<int>)
    requires NewestOf(b, keys1, all) && NewestOf(b, keys2, all)
    ensures keys1 == keys2
  {
    hide IsNewer, Live, Unwrap;
    var n1, n2 := Numbers(b, keys1), Numbers(b, keys2);
    NumbersCount(b, keys1);
    NumbersCount(b, keys2);
    if |keys1| < MAX_MEDIA_PACKETS || |keys2| < MAX_MEDIA_PACKETS {
      SizeBound(n1, all);
      SizeBound(n2, all);
      SubsetSize(n1, all);
      SubsetSize(n2, all);
    } else {
      NewestNested(b, keys1, keys2, all);
      SubsetSize(if n1 <= n2 then n1 else n2, if n1 <= n2 then n2 else n1);
    }
    SortedUnique(b, keys1, keys2);
  }

  lemma SizeBound(a: set<int>, b: set<int>)
    requires a <= b
    ensures |a| <= |b|
  {
    assert |b - a| == |b| - |a|;
  }

  // ---- Main results --------------------------------------------------------------

  // AttemptRecover recovers exactly the least closed set, ends with every FEC packet
  // at least two members short, and keeps the newest 48 of the old and the recovered.
  // The FEC list may be in any order.
  lemma AttemptRecoversLeastSet(b: int, st: State)
    requires WellLinked(b, st) && |st.recovered| <= MAX_MEDIA_PACKETS
    ensures Closed(st.fecs, NewSet(News(st, 0)))
    ensures forall t :: Closed(st.fecs, t) ==> NewSet(News(st, 0)) <= t
    ensures forall f :: f in Attempt(st, 0).fecs ==> |Missing(f.protectedList)| > 1
    ensures NewestOf(b, Keys(Attempt(st, 0).recovered), Numbers(b, Keys(st.recovered)) + NewNumbers(b, News(st, 0)))
  {
    ProtectedDistinct(b, st);
    hide WellLinked, Closed, NewestOf, Numbers;
    NewsClosed(st, 0);
    forall t | Closed(st.fecs, t)
      ensures NewSet(News(st, 0)) <= t
    {
      NewsLeast(st, 0, t);
    }
    LeftNeedTwo(st, 0);
    assert NewestOf(b, Keys(st.recovered), Numbers(b, Keys(st.recovered))) by { AllAreNewest(b, st); }
    AttemptKeepsNewest(b, st, 0, Numbers(b, Keys(st.recovered)));
  }

  lemma AllAreNewest(b: int, st: State)
    requires WellLinked(b, st) && |st.recovered| <= MAX_MEDIA_PACKETS
    ensures NewestOf(b, Keys(st.recovered), Numbers(b, Keys(st.recovered)))
  {
    hide Unwrap;
  }

  lemma ProtectedDistinct(b: int, st: State)
    requires WellLinked(b, st)
    ensures AllDistinct(st.fecs)
  {
    hide Live, ProtectedOffsets;
    forall k | 0 <= k < |st.fecs|
      ensures DistinctKeys(st.fecs[k].protectedList)
    {
      CoveredAscends(st.fecs[k].pkt);
      forall i, j | 0 <= i < j < |st.fecs[k].protectedList|
        ensures st.fecs[k].protectedList[i].seqNum != st.fecs[k].protectedList[j].seqNum
      {
        assert FecWellFormed(b, st.fecs[k]);
        assert IsNewer(CoveredSeqs(st.fecs[k].pkt)[j], CoveredSeqs(st.fecs[k].pkt)[i]);
      }
    }
  }

  // The order of the FEC list changes neither which packets the recovered list ends
  // up with nor their data.
  lemma OrderOfFecsIrrelevant(b: int, sent: Stream, ssrc: SsrcBytes, st1: State, st2: State)
    requires GoodStream(sent, ssrc) && Authentic(b, sent, ssrc, st1) && Authentic(b, sent, ssrc, st2)
    requires WellLinked(b, st1) && WellLinked(b, st2) && |st1.recovered| <= MAX_MEDIA_PACKETS
    requires st1.recovered == st2.recovered && multiset(st1.fecs) == multiset(st2.fecs)
    ensures var list1, list2 := Attempt(st1, 0).recovered, Attempt(st2, 0).recovered;
      |list1| == |list2| && forall i :: 0 <= i < |list1| ==> list1[i].seqNum == list2[i].seqNum && list1[i].pkt == list2[i].pkt
  {
    hide WellLinked, Closed, NewestOf, GoodStream, FecPacketAuthentic, Unwrap;
    AttemptRecoversLeastSet(b, st1);
    AttemptRecoversLeastSet(b, st2);
    ProtectedDistinct(b, st1);
    OrderIrrelevant(st1, st2);
    NewNumbersSame(b, News(st1, 0), News(st2, 0));
    NewestUnique(b, Keys(Attempt(st1, 0).recovered), Keys(Attempt(st2, 0).recovered),
                 Numbers(b, Keys(st1.recovered)) + NewNumbers(b, News(st1, 0)));
    AttemptAuthentic(b, sent, ssrc, st1, 0);
    AttemptAuthentic(b, sent, ssrc, st2, 0);
  }

  lemma NewNumbersSame(b: int, news1: seq<RecoveredPacket>, news2: seq<RecoveredPacket>)
    requires NewSet(news1) == NewSet(news2)
    ensures NewNumbers(b, news1) == NewNumbers(b, news2)
  {
    hide Unwrap;
    NewKeys(news1);
    NewKeys(news2);
  }

  lemma NewKeys(news: seq<RecoveredPacket>)
    ensures forall x :: x in Keys(news) <==> x in NewSet(news)
  {
    forall x | x in Keys(news)
      ensures x in NewSet(news)
    {
      var i :| 0 <= i < |news| && Keys(news)[i] == x;
      assert news[i] in news;
    }
    forall x | x in NewSet(news)
      ensures x in Keys(news)
    {
      var r :| r in news && r.seqNum == x;
      var i :| 0 <= i < |news| && news[i] == r;
      assert Keys(news)[i] == x;
    }
  }
}
