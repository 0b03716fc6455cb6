/** The window discipline supplies the retention bound of every record the rollbacks of the live loop reach. */
module PeakRetention {
  import opened Common
  import opened Registry
  import opened Versions
  import opened PeakWindow
  import opened References
  import P = PendingUpdates
  import S = SingletonVersions

  /**
   A rollback issued at any served peak is one the pending updates' runs allow, whenever nothing above
   the loop's high-water mark was handed to them.
   */
  lemma PendingRollbackAllowed(l: Loop, ev: PeakEvent, hw: nat, s: P.UpdateRun<UpdateSlot>)
    requires Disciplined(l, hw) && Served(l, ev) && Issued(l, ev).Some? && s.hw <= hw
    ensures P.UpdateAllowed(s, P.Undo(Issued(l, ev).value))
  {
    PeakKeepsDiscipline(l, ev, hw);
  }

  /** And one the followed singletons' runs allow. */
  lemma SingletonRollbackInTime(l: Loop, ev: PeakEvent, hw: nat, s: Store, j: S.Logs, seen: nat)
    requires Disciplined(l, hw) && Served(l, ev) && Issued(l, ev).Some? && seen <= hw
    ensures S.InTime(s, j, seen, Change.Rollback(Issued(l, ev).value))
  {
    PeakKeepsDiscipline(l, ev, hw);
  }

  /** So after it every pending update is its last surviving initiation, with no bound left to assume. */
  lemma PeakRestoresPending(l: Loop, ev: PeakEvent, hw: nat, ops: seq<P.UpdateOp<UpdateSlot>>)
    requires Disciplined(l, hw) && Served(l, ev) && Issued(l, ev).Some?
    requires P.UpdatesAllowed(ops) && P.UpdateExec(ops).hw <= hw
    ensures
      var after := P.UpdateExec(ops + [P.Undo(Issued(l, ev).value)]);
      after.rec.current == LastOf(after.log)
  {
    var all := ops + [P.Undo(Issued(l, ev).value)];
    assert all[..|ops|] == ops;
    PendingRollbackAllowed(l, ev, hw, P.UpdateExec(ops));
    P.UpdatesAnswer(all);
  }

  lemma RollbackRestores(s: Store, j: S.Logs, seen: nat, from: u32)
    requires S.Tracks(s, j, seen) && SatSub(seen, RETENTION) <= from
    ensures
      var after := Apply(s, Change.Rollback(from));
      forall x :: x in after ==> after[x].versions.current == Latest(S.LogAt(j, x), from)
  {
    forall x | x in s ensures Restored(s[x], from).versions.current == Latest(S.LogAt(j, x), from) {
      assert S.TracksAt(s[x], S.LogAt(j, x), seen);
      S.RollbackTracksAt(s[x], S.LogAt(j, x), seen, from);
    }
  }

  /** And every followed singleton is at the last entry of its truncated log. */
  lemma PeakRestoresSingletons(l: Loop, ev: PeakEvent, hw: nat, s: Store, j: S.Logs, seen: nat)
    requires Disciplined(l, hw) && Served(l, ev) && Issued(l, ev).Some?
    requires S.Tracks(s, j, seen) && seen <= hw
    ensures
      var from := Issued(l, ev).value;
      var after := Apply(s, Change.Rollback(from));
      forall x :: x in after ==> after[x].versions.current == Latest(S.LogAt(j, x), from)
  {
    PeakKeepsDiscipline(l, ev, hw);
    RollbackRestores(s, j, seen, Issued(l, ev).value);
  }
}
