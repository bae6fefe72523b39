/**
 The epoch-indexed snapshot table of a directory history, as a value: the
 effect of inserting STRs one by one, and the shapes the table keeps.
 */
module SnapshotTable {
  import opened Protocol

  type Table = map<nat, DirStr>

  /** The table after storing each STR of `strs` under its own epoch, first to last. */
  function Inserted(t: Table, strs: seq<DirStr>): Table
    decreases |strs|
  {
    if strs == [] then t else Inserted(t[strs[0].epoch := strs[0]], strs[1..])
  }

  /** The epochs that occur in `strs`. */
  ghost function Epochs(strs: seq<DirStr>): set<nat>
  {
    set i | 0 <= i < |strs| :: strs[i].epoch
  }

  /** The last STR of `strs`, or `d` when there is none. */
  function LastOr(strs: seq<DirStr>, d: DirStr): DirStr
  {
    if strs == [] then d else strs[|strs| - 1]
  }

  /** Every stored STR sits under its own epoch. */
  ghost predicate Keyed(t: Table)
  {
    forall e :: e in t ==> t[e].epoch == e
  }

  /** The table holds exactly the epochs `0..latest`, with no gap. */
  ghost predicate Gapless(t: Table, latest: nat)
  {
    forall e: nat :: e in t <==> e <= latest
  }

  /** The epochs of `strs` are `first, first + 1, ...`. */
  ghost predicate Consecutive(first: nat, strs: seq<DirStr>)
  {
    forall i :: 0 <= i < |strs| ==> strs[i].epoch == first + i
  }

  /** Inserting one more STR at the end is one more table update: the loop step of `insertRange`. */
  lemma {:induction false} InsertedSnoc(t: Table, strs: seq<DirStr>, s: DirStr)
    ensures Inserted(t, strs + [s]) == Inserted(t, strs)[s.epoch := s]
    decreases |strs|
  {
    if strs == [] {
      assert [s][1..] == [];
    } else {
      assert (strs + [s])[0] == strs[0];
      assert (strs + [s])[1..] == strs[1..] + [s];
      InsertedSnoc(t[strs[0].epoch := strs[0]], strs[1..], s);
    }
  }

  /** Inserting adds exactly the epochs of the inserted STRs as keys. */
  lemma {:induction false} InsertedKeys(t: Table, strs: seq<DirStr>)
    ensures Inserted(t, strs).Keys == t.Keys + Epochs(strs)
    decreases |strs|
  {
    if strs != [] {
      InsertedKeys(t[strs[0].epoch := strs[0]], strs[1..]);
      assert Epochs(strs) == {strs[0].epoch} + Epochs(strs[1..]) by {
        forall e | e in Epochs(strs) ensures e in {strs[0].epoch} + Epochs(strs[1..]) {
          var i :| 0 <= i < |strs| && strs[i].epoch == e;
          if i > 0 { assert strs[1..][i - 1] == strs[i]; }
        }
        forall e | e in Epochs(strs[1..]) ensures e in Epochs(strs) {
          var i :| 0 <= i < |strs[1..]| && strs[1..][i].epoch == e;
          assert strs[i + 1] == strs[1..][i];
        }
      }
    }
  }

  /** An epoch that no inserted STR carries keeps its old entry, or stays absent. */
  lemma {:induction false} InsertedElsewhere(t: Table, strs: seq<DirStr>, e: nat)
    requires forall i :: 0 <= i < |strs| ==> strs[i].epoch != e
    ensures e in Inserted(t, strs) <==> e in t
    ensures e in t ==> Inserted(t, strs)[e] == t[e]
    decreases |strs|
  {
    if strs != [] {
      assert strs[0].epoch != e;
      forall i | 0 <= i < |strs[1..]| ensures strs[1..][i].epoch != e {
        assert strs[1..][i] == strs[i + 1];
      }
      InsertedElsewhere(t[strs[0].epoch := strs[0]], strs[1..], e);
    }
  }

  /**
   An inserted STR that no later STR of the range overrides is what the
   table holds under its epoch: the last STR of an epoch wins.
   */
  lemma {:induction false} InsertedLastWins(t: Table, strs: seq<DirStr>, i: nat)
    requires i < |strs|
    requires forall j :: i < j < |strs| ==> strs[j].epoch != strs[i].epoch
    ensures strs[i].epoch in Inserted(t, strs) && Inserted(t, strs)[strs[i].epoch] == strs[i]
    decreases |strs|
  {
    var rest := strs[1..];
    if i == 0 {
      forall j | 0 <= j < |rest| ensures rest[j].epoch != strs[0].epoch {
        assert rest[j] == strs[j + 1];
      }
      InsertedElsewhere(t[strs[0].epoch := strs[0]], rest, strs[0].epoch);
    } else {
      assert rest[i - 1] == strs[i];
      forall j | i - 1 < j < |rest| ensures rest[j].epoch != rest[i - 1].epoch {
        assert rest[j] == strs[j + 1];
      }
      InsertedLastWins(t[strs[0].epoch := strs[0]], rest, i - 1);
    }
  }

  /** Storing STRs under their own epochs keeps every entry under its own epoch. */
  lemma {:induction false} InsertedKeyed(t: Table, strs: seq<DirStr>)
    requires Keyed(t)
    ensures Keyed(Inserted(t, strs))
    decreases |strs|
  {
    if strs != [] {
      InsertedKeyed(t[strs[0].epoch := strs[0]], strs[1..]);
    }
  }

  /**
   A gap-free table up to `latest`, extended by STRs whose epochs continue
   `latest` one by one, is gap-free up to the last of them.
   */
  lemma InsertedConsecutive(t: Table, latest: nat, strs: seq<DirStr>)
    requires Gapless(t, latest)
    requires Consecutive(latest + 1, strs)
    ensures Gapless(Inserted(t, strs), latest + |strs|)
  {
    InsertedKeys(t, strs);
    forall e: nat ensures e in Inserted(t, strs) <==> e <= latest + |strs| {
      if latest < e <= latest + |strs| {
        assert strs[e - latest - 1].epoch == e;
      }
    }
  }

  /** With pairwise distinct epochs, every inserted STR is stored under its own epoch. */
  lemma InsertedStoresEach(t: Table, strs: seq<DirStr>)
    requires forall i, j :: 0 <= i < j < |strs| ==> strs[i].epoch != strs[j].epoch
    ensures forall i :: 0 <= i < |strs| ==> strs[i].epoch in Inserted(t, strs) && Inserted(t, strs)[strs[i].epoch] == strs[i]
  {
    forall i | 0 <= i < |strs|
      ensures strs[i].epoch in Inserted(t, strs) && Inserted(t, strs)[strs[i].epoch] == strs[i]
    {
      InsertedLastWins(t, strs, i);
    }
  }
}
