// AttemptRecover as a peeling process: what it recovers is the least set closed
// under "an FEC packet with one missing member yields it".
module Peeling {
  import opened Bytes
  import opened FecDecoder

  ghost function MissSet(f: FecPacket): set<u16> {
    set s | s in Missing(f.protectedList)
  }

  ghost predicate DistinctKeys(list: seq<ProtectedPacket>) {
    forall i, j :: 0 <= i < j < |list| ==> list[i].seqNum != list[j].seqNum
  }

  ghost predicate AllDistinct(fecs: seq<FecPacket>) {
    forall i :: 0 <= i < |fecs| ==> DistinctKeys(fecs[i].protectedList)
  }

  // No FEC packet with one member missing from s is left.
  ghost predicate Closed(fecs: seq<FecPacket>, s: set<u16>) {
    forall f, x :: f in fecs && x in MissSet(f) && MissSet(f) <= s + {x} ==> x in s
  }

  ghost function NewSet(news: seq<RecoveredPacket>): set<u16> {
    set r | r in news :: r.seqNum
  }

  lemma {:induction false} MissingDistinct(list: seq<ProtectedPacket>)
    requires DistinctKeys(list)
    ensures forall i, j :: 0 <= i < j < |Missing(list)| ==> Missing(list)[i] != Missing(list)[j]
    ensures forall s :: s in Missing(list) ==> exists i :: 0 <= i < |list| && list[i].seqNum == s && list[i].pkt.None?
  {
    if list != [] {
      var rest := list[..|list| - 1];
      MissingDistinct(rest);
      forall s | s in Missing(rest)
        ensures exists i :: 0 <= i < |rest| && list[i].seqNum == s && list[i].pkt.None?
      {
        var i :| 0 <= i < |rest| && rest[i].seqNum == s && rest[i].pkt.None?;
        assert list[i].seqNum == s;
      }
      forall k | 0 <= k < |Missing(rest)|
        ensures Missing(rest)[k] != list[|rest|].seqNum
      {
        assert Missing(rest)[k] in Missing(rest);
        var i :| 0 <= i < |rest| && list[i].seqNum == Missing(rest)[k] && list[i].pkt.None?;
      }
    }
  }

  lemma NoneMissing(f: FecPacket)
    requires |Missing(f.protectedList)| == 0
    ensures MissSet(f) == {}
  {
  }

  lemma TwoMissing(f: FecPacket, x: u16)
    requires DistinctKeys(f.protectedList) && |Missing(f.protectedList)| > 1
    ensures !(MissSet(f) <= {x})
  {
    hide Missing;
    MissingDistinct(f.protectedList);
    assert Missing(f.protectedList)[0] in MissSet(f) && Missing(f.protectedList)[1] in MissSet(f);
  }

  lemma {:induction false} MissingMembers(list: seq<ProtectedPacket>, i: nat)
    requires i < |list| && list[i].pkt.None?
    ensures list[i].seqNum in Missing(list)
  {
    if i < |list| - 1 {
      MissingMembers(list[..|list| - 1], i);
    }
  }

  // Learning a packet removes it from the missing members, and nothing else.
  lemma {:induction false} CoverMissing(list: seq<ProtectedPacket>, r: RecoveredPacket)
    ensures forall s :: s in Missing(CoverList(list, r)) <==> s in Missing(list) && s != r.seqNum
  {
    if list != [] {
      CoverMissing(list[..|list| - 1], r);
      assert CoverList(list, r)[..|list| - 1] == CoverList(list[..|list| - 1], r);
    }
  }

  lemma CoverShrinks(f: FecPacket, r: RecoveredPacket)
    ensures MissSet(CoverFec(f, r)) == MissSet(f) - {r.seqNum}
    ensures DistinctKeys(f.protectedList) ==> DistinctKeys(CoverFec(f, r).protectedList)
  {
    CoverMissing(f.protectedList, r);
  }

  // The FEC packets after one recovery, and after dropping a finished one.

  lemma WithoutMembers(fecs: seq<FecPacket>, i: nat)
    requires i < |fecs|
    ensures forall f :: f in Without(fecs, i) ==> f in fecs
    ensures forall f :: f in fecs && f != fecs[i] ==> f in Without(fecs, i)
    ensures forall j :: 0 <= j < i ==> Without(fecs, i)[j] == fecs[j]
    ensures AllDistinct(fecs) ==> AllDistinct(Without(fecs, i))
  {
    hide DistinctKeys;
    forall k | 0 <= k < |fecs| && k != i
      ensures fecs[k] == Without(fecs, i)[if k < i then k else k - 1]
    {
    }
    forall k | 0 <= k < |fecs| - 1
      ensures Without(fecs, i)[k] == fecs[if k < i then k else k + 1]
    {
    }
  }

  lemma CoverAllShrinks(fecs: seq<FecPacket>, r: RecoveredPacket)
    requires AllDistinct(fecs)
    ensures AllDistinct(CoverAll(fecs, r))
    ensures forall k :: 0 <= k < |fecs| ==> MissSet(CoverAll(fecs, r)[k]) == MissSet(fecs[k]) - {r.seqNum}
  {
    hide DistinctKeys, MissSet;
    forall k | 0 <= k < |fecs|
      ensures MissSet(CoverAll(fecs, r)[k]) == MissSet(fecs[k]) - {r.seqNum} && DistinctKeys(CoverAll(fecs, r)[k].protectedList)
    {
      CoverShrinks(fecs[k], r);
    }
  }

  // Member f of the FEC list after a recovery of x was member g before.
  ghost predicate Shrunk(f: FecPacket, g: FecPacket, x: u16) { MissSet(f) == MissSet(g) - {x} }

  lemma RecoverAtFecs(st: State, i: nat)
    requires i < |st.fecs| && |Missing(st.fecs[i].protectedList)| == 1 && AllDistinct(st.fecs)
    ensures AllDistinct(RecoverAt(st, i).fecs)
    ensures var x := Recover(st.fecs[i]).seqNum;
      && MissSet(st.fecs[i]) == {x}
      && (forall f :: f in RecoverAt(st, i).fecs ==> exists g :: g in st.fecs && Shrunk(f, g, x))
      && (forall g :: g in st.fecs && g != st.fecs[i] ==> exists f :: f in RecoverAt(st, i).fecs && Shrunk(f, g, x))
  {
    var r := Recover(st.fecs[i]);
    assert r.seqNum == Missing(st.fecs[i].protectedList)[0] && MissSet(st.fecs[i]) == {r.seqNum};
    var all := CoverAll(st.fecs, r);
    assert RecoverAt(st, i).fecs == Without(all, i);
    CoverAllShrinks(st.fecs, r);
    hide Recover, RecoverAt, MissSet, Missing, Without, DistinctKeys;
    WithoutMembers(all, i);
    forall f | f in Without(all, i)
      ensures exists g :: g in st.fecs && Shrunk(f, g, r.seqNum)
    {
      var k :| 0 <= k < |all| && all[k] == f;
      assert Shrunk(f, st.fecs[k], r.seqNum);
    }
    forall g | g in st.fecs && g != st.fecs[i]
      ensures exists f :: f in Without(all, i) && Shrunk(f, g, r.seqNum)
    {
      var k :| 0 <= k < |st.fecs| && st.fecs[k] == g;
      WithoutKeeps(all, i, k);
      assert Shrunk(all[k], g, r.seqNum);
    }
  }

  lemma WithoutKeeps(fecs: seq<FecPacket>, i: nat, k: nat)
    requires i < |fecs| && k < |fecs| && k != i
    ensures fecs[k] in Without(fecs, i)
  {
    assert Without(fecs, i)[if k < i then k else k - 1] == fecs[k];
  }

  // What AttemptRecover recovers is closed: nothing recoverable is left behind.
  lemma {:induction false} NewsClosed(st: State, i: nat)
    requires i <= |st.fecs| && AllDistinct(st.fecs)
    requires forall j :: 0 <= j < i ==> |Missing(st.fecs[j].protectedList)| > 1
    ensures Closed(st.fecs, NewSet(News(st, i)))
    decreases |st.fecs|, |st.fecs| - i
  {
    hide Missing, MissSet, Recover, RecoverAt, Without, DistinctKeys;
    var n := NewSet(News(st, i));
    if i == |st.fecs| {
      forall f, x | f in st.fecs
        ensures !(MissSet(f) <= n + {x})
      {
        TwoMissing(f, x);
      }
    } else if |Missing(st.fecs[i].protectedList)| == 1 {
      var next, x := RecoverAt(st, i), Recover(st.fecs[i]).seqNum;
      RecoverAtFecs(st, i);
      NewsClosed(next, 0);
      var n1 := NewSet(News(next, 0));
      assert n == {x} + n1;
      forall g, y | g in st.fecs && y in MissSet(g) && MissSet(g) <= n + {y}
        ensures y in n
      {
        if g != st.fecs[i] && y != x {
          var f :| f in next.fecs && Shrunk(f, g, x);
          assert y in MissSet(f) && MissSet(f) <= n1 + {y};
        }
      }
    } else if |Missing(st.fecs[i].protectedList)| == 0 {
      WithoutMembers(st.fecs, i);
      NoneMissing(st.fecs[i]);
      NewsClosed(st.(fecs := Without(st.fecs, i)), i);
    } else {
      NewsClosed(st, i + 1);
    }
  }

  // ... and it is the least closed set.
  lemma {:induction false} NewsLeast(st: State, i: nat, t: set<u16>)
    requires i <= |st.fecs| && AllDistinct(st.fecs) && Closed(st.fecs, t)
    ensures NewSet(News(st, i)) <= t
    decreases |st.fecs|, |st.fecs| - i
  {
    if i == |st.fecs| {
    } else if |Missing(st.fecs[i].protectedList)| == 1 {
      var next, x := RecoverAt(st, i), Recover(st.fecs[i]).seqNum;
      RecoverAtFecs(st, i);
      assert st.fecs[i] in st.fecs && x in MissSet(st.fecs[i]) && x in t;
      forall f, y | f in next.fecs && y in MissSet(f) && MissSet(f) <= t + {y}
        ensures y in t
      {
        var g :| g in st.fecs && Shrunk(f, g, x);
        assert MissSet(g) <= t + {y};
      }
      NewsLeast(next, 0, t);
    } else if |Missing(st.fecs[i].protectedList)| == 0 {
      WithoutMembers(st.fecs, i);
      NewsLeast(st.(fecs := Without(st.fecs, i)), i, t);
    } else {
      NewsLeast(st, i + 1, t);
    }
  }

  // Every FEC packet left has at least two members missing.
  lemma {:induction false} LeftNeedTwo(st: State, i: nat)
    requires i <= |st.fecs|
    requires forall j :: 0 <= j < i ==> |Missing(st.fecs[j].protectedList)| > 1
    ensures forall f :: f in Attempt(st, i).fecs ==> |Missing(f.protectedList)| > 1
    decreases |st.fecs|, |st.fecs| - i
  {
    if i == |st.fecs| {
    } else if |Missing(st.fecs[i].protectedList)| == 1 {
      LeftNeedTwo(RecoverAt(st, i), 0);
    } else if |Missing(st.fecs[i].protectedList)| == 0 {
      LeftNeedTwo(st.(fecs := Without(st.fecs, i)), i);
    } else {
      LeftNeedTwo(st, i + 1);
    }
  }

  // The order of the FEC list does not matter for what is recovered.
  lemma OrderIrrelevant(st1: State, st2: State)
    requires multiset(st1.fecs) == multiset(st2.fecs) && AllDistinct(st1.fecs)
    ensures NewSet(News(st1, 0)) == NewSet(News(st2, 0))
  {
    forall f
      ensures f in st1.fecs <==> f in st2.fecs
    {
      assert f in st1.fecs <==> f in multiset(st1.fecs);
      assert f in st2.fecs <==> f in multiset(st2.fecs);
    }
    assert AllDistinct(st2.fecs) by {
      forall i | 0 <= i < |st2.fecs|
        ensures DistinctKeys(st2.fecs[i].protectedList)
      {
        assert st2.fecs[i] in st1.fecs;
      }
    }
    NewsClosed(st1, 0);
    NewsClosed(st2, 0);
    NewsLeast(st1, 0, NewSet(News(st2, 0)));
    NewsLeast(st2, 0, NewSet(News(st1, 0)));
  }

  // Nothing is recovered twice in one call.
  lemma {:induction false} NewsMissed(st: State, i: nat)
    requires i <= |st.fecs| && AllDistinct(st.fecs)
    ensures forall r :: r in News(st, i) ==> exists f :: f in st.fecs && r.seqNum in MissSet(f)
    ensures forall a, b :: 0 <= a < b < |News(st, i)| ==> News(st, i)[a].seqNum != News(st, i)[b].seqNum
    decreases |st.fecs|, |st.fecs| - i
  {
    hide Missing, MissSet, Recover, RecoverAt, Without, DistinctKeys;
    if i == |st.fecs| {
    } else if |Missing(st.fecs[i].protectedList)| == 1 {
      var next, x, rest := RecoverAt(st, i), Recover(st.fecs[i]).seqNum, News(RecoverAt(st, i), 0);
      RecoverAtFecs(st, i);
      NewsMissed(next, 0);
      assert st.fecs[i] in st.fecs && x in MissSet(st.fecs[i]);
      forall r | r in rest
        ensures r.seqNum != x && exists f :: f in st.fecs && r.seqNum in MissSet(f)
      {
        var f :| f in next.fecs && r.seqNum in MissSet(f);
        var g :| g in st.fecs && Shrunk(f, g, x);
      }
    } else if |Missing(st.fecs[i].protectedList)| == 0 {
      WithoutMembers(st.fecs, i);
      NewsMissed(st.(fecs := Without(st.fecs, i)), i);
    } else {
      NewsMissed(st, i + 1);
    }
  }
}
