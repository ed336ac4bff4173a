/** Execution-log retention: `cleanup` in backend/app/services/execution_log.py. */
module Retention {
  import opened Common

  datatype Log = Log(id: string, tool: string, createdAt: int)

  function Of(rows: set<Log>, tool: string): set<Log> {
    set r | r in rows && r.tool == tool
  }

  function NotOlder(rows: set<Log>, t: int): set<Log> {
    set r | r in rows && r.createdAt >= t
  }

  function Newer(rows: set<Log>, t: int): set<Log> {
    set r | r in rows && r.createdAt > t
  }

  /** What retention promises: a log stays if and only if its tool has at most `n` logs that are at
      least as new. */
  function Kept(rows: set<Log>, n: nat): set<Log> {
    set r | r in rows && |NotOlder(Of(rows, r.tool), r.createdAt)| <= n
  }

  // ---------------------------------------------------------------------------------------
  // The operation
  // ---------------------------------------------------------------------------------------

  /** `order_by(desc(created_at)).limit(1)` */
  method Newest(rows: set<Log>) returns (newest: Log)
    requires rows != {}
    ensures newest in rows && forall r :: r in rows ==> r.createdAt <= newest.createdAt
  {
    newest :| newest in rows;
    var todo := rows;
    while todo != {}
      invariant todo <= rows && newest in rows
      invariant forall r :: r in rows - todo ==> r.createdAt <= newest.createdAt
      decreases |todo|
    {
      var r :| r in todo;
      todo := todo - {r};
      if r.createdAt > newest.createdAt {
        newest := r;
      }
    }
  }

  /** `order_by(desc(created_at)).offset(n).limit(1)`: with equal timestamps the database may order
      either way, but the timestamp of the result is determined. */
  method SkipNewest(rows: set<Log>, n: nat) returns (cutoff: Log)
    requires |rows| > n
    ensures cutoff in rows
    ensures |Newer(rows, cutoff.createdAt)| <= n < |NotOlder(rows, cutoff.createdAt)|
  {
    var rest, skipped := rows, {};
    while |skipped| < n
      invariant skipped !! rest && skipped + rest == rows && |skipped| <= n
      invariant forall s, r :: s in skipped && r in rest ==> r.createdAt <= s.createdAt
      decreases n - |skipped|
    {
      assert |rest| == |rows| - |skipped|;
      var r := Newest(rest);
      rest := rest - {r};
      skipped := skipped + {r};
    }
    assert |rest| == |rows| - |skipped|;
    cutoff := Newest(rest);
    SubsetSize(Newer(rows, cutoff.createdAt), skipped);
    SubsetSize(skipped + {cutoff}, NotOlder(rows, cutoff.createdAt));
  }

  /** Deleting a tool's rows up to the cutoff keeps what retention promises, and no other tool is
      touched. */
  lemma CutoffKeeps(rows: set<Log>, tool: string, n: nat, cutoff: int)
    requires |Newer(Of(rows, tool), cutoff)| <= n < |NotOlder(Of(rows, tool), cutoff)|
    ensures forall r :: r in Of(rows, tool) ==> (r in Kept(rows, n) <==> r.createdAt > cutoff)
  {
    var own := Of(rows, tool);
    forall r | r in own ensures r in Kept(rows, n) <==> r.createdAt > cutoff {
      if r.createdAt > cutoff {
        SubsetSize(NotOlder(own, r.createdAt), Newer(own, cutoff));
      } else {
        SubsetSize(NotOlder(own, cutoff), NotOlder(own, r.createdAt));
      }
    }
  }

  lemma FewStay(rows: set<Log>, tool: string, n: nat)
    requires |Of(rows, tool)| <= n
    ensures Of(rows, tool) <= Kept(rows, n)
  {
    forall r | r in Of(rows, tool) ensures r in Kept(rows, n) {
      SubsetSize(NotOlder(Of(rows, tool), r.createdAt), Of(rows, tool));
    }
  }

  class LogTable {
    var rows: set<Log>

    method TrimTool(tool: string, n: nat) returns (deleted: nat)
      requires |Of(rows, tool)| > n
      modifies this
      ensures rows == old(rows) - (Of(old(rows), tool) - Kept(old(rows), n))
      ensures deleted == |old(rows)| - |rows|
    {
      var cutoff := SkipNewest(Of(rows, tool), n);
      var doomed := set r | r in rows && r.tool == tool && r.createdAt <= cutoff.createdAt;
      CutoffKeeps(rows, tool, n, cutoff.createdAt);
      assert doomed == Of(rows, tool) - Kept(rows, n);
      deleted := |doomed|;
      rows := rows - doomed;
    }

    /** Afterwards the table holds exactly what retention promises, and the result counts the rows
        removed. */
    method Cleanup(maxPerTool: nat) returns (totalDeleted: nat)
      modifies this
      ensures rows == Kept(old(rows), maxPerTool)
      ensures totalDeleted == |old(rows)| - |rows|
    {
      var n := maxPerTool;
      var todo: set<string> := set r | r in rows && |Of(rows, r.tool)| > n :: r.tool;
      totalDeleted := 0;
      forall r | r in rows && r.tool !in todo ensures r in Kept(rows, n) {
        FewStay(rows, r.tool, n);
        assert r in Of(rows, r.tool);
      }
      while todo != {}
        invariant rows <= old(rows) && Kept(old(rows), n) <= rows
        invariant forall tool :: tool in todo ==> |Of(old(rows), tool)| > n
        invariant forall r :: r in old(rows) && r.tool in todo ==> r in rows
        invariant forall r :: r in rows && r.tool !in todo ==> r in Kept(old(rows), n)
        invariant totalDeleted == |old(rows)| - |rows|
        decreases |todo|
      {
        var tool :| tool in todo;
        assert Of(rows, tool) == Of(old(rows), tool);
        SameToolSameFate(rows, old(rows), tool, n);
        var deleted := TrimTool(tool, n);
        totalDeleted := totalDeleted + deleted;
        todo := todo - {tool};
      }
    }
  }

  lemma SameToolSameFate(a: set<Log>, b: set<Log>, tool: string, n: nat)
    requires Of(a, tool) == Of(b, tool)
    ensures forall r :: r in Of(a, tool) ==> (r in Kept(a, n) <==> r in Kept(b, n))
  {
    forall r | r in Of(a, tool) ensures r in Kept(a, n) <==> r in Kept(b, n) {
      assert r in Of(b, tool);
    }
  }

  // ---------------------------------------------------------------------------------------
  // What the promise gives
  // ---------------------------------------------------------------------------------------

  function TimeOf(r: Log): int { r.createdAt }

  function AgeOf(r: Log): int { -r.createdAt }

  /** Every tool keeps at most `n` logs. */
  lemma AtMostNPerTool(rows: set<Log>, tool: string, n: nat)
    ensures |Of(Kept(rows, n), tool)| <= n
  {
    var kept := Of(Kept(rows, n), tool);
    if kept != {} {
      var oldest := Greatest(kept, AgeOf);
      assert forall r :: r in kept ==> AgeOf(r) <= AgeOf(oldest);
      SubsetSize(kept, NotOlder(Of(rows, tool), oldest.createdAt));
    }
  }

  /** A deleted log is strictly older than every surviving log of its tool. */
  lemma DeletedAreOlder(rows: set<Log>, n: nat, deleted: Log, kept: Log)
    requires deleted in rows - Kept(rows, n) && kept in Kept(rows, n) && deleted.tool == kept.tool
    ensures deleted.createdAt < kept.createdAt
  {
    if deleted.createdAt >= kept.createdAt {
      SubsetSize(NotOlder(Of(rows, deleted.tool), deleted.createdAt), NotOlder(Of(rows, kept.tool), kept.createdAt));
    }
  }

  /** Tools with at most `n` logs are untouched. */
  lemma SmallToolsUntouched(rows: set<Log>, tool: string, n: nat)
    requires |Of(rows, tool)| <= n
    ensures Of(Kept(rows, n), tool) == Of(rows, tool)
  {
    FewStay(rows, tool, n);
  }

  /** Two logs of the tool share a timestamp and the boundary runs between them. */
  ghost predicate TieAtBoundary(rows: set<Log>, tool: string, n: nat) {
    exists r :: r in Of(rows, tool) && |Newer(Of(rows, tool), r.createdAt)| < n
                && |NotOlder(Of(rows, tool), r.createdAt)| > n
  }

  /** A tool that had more than `n` logs keeps exactly `n` if and only if no tie runs across the
      boundary; with a tie it keeps fewer, because the whole tie is deleted. */
  lemma ExactlyNUnlessTied(rows: set<Log>, tool: string, n: nat)
    requires |Of(rows, tool)| > n
    ensures |Of(Kept(rows, n), tool)| == n <==> !TieAtBoundary(rows, tool, n)
  {
    var own, kept := Of(rows, tool), Of(Kept(rows, n), tool);
    AtMostNPerTool(rows, tool, n);
    assert kept <= own;
    // The newest log that is deleted marks the boundary.
    var gone := own - kept;
    assert gone != {} by {
      if gone == {} {
        assert forall r :: r in own ==> r !in own - kept;
        SubsetSize(own, kept);
      }
    }
    var last := Greatest(gone, TimeOf);
    forall r | r in gone ensures r.createdAt <= last.createdAt {
      assert TimeOf(r) <= TimeOf(last);
    }
    forall r | r in Newer(own, last.createdAt) ensures r in kept {
    }
    forall r | r in kept ensures r in Newer(own, last.createdAt) {
      DeletedAreOlder(rows, n, last, r);
    }
    assert kept == Newer(own, last.createdAt);
    assert |NotOlder(own, last.createdAt)| > n;
    if |kept| == n && TieAtBoundary(rows, tool, n) {
      var r :| r in own && |Newer(own, r.createdAt)| < n && |NotOlder(own, r.createdAt)| > n;
      assert r !in kept;
      SubsetSize(Newer(own, last.createdAt), Newer(own, r.createdAt));
    }
  }

  /** It is the most that can be kept: any set of rows that holds with a log all logs of its tool at least
      as new, and at most `n` of every tool, is part of it. */
  lemma KeptIsLargest(rows: set<Log>, some: set<Log>, n: nat)
    requires some <= rows && forall tool :: |Of(some, tool)| <= n
    requires forall r, q :: r in some && q in rows && q.tool == r.tool && q.createdAt >= r.createdAt ==> q in some
    ensures some <= Kept(rows, n)
  {
    forall r | r in some ensures r in Kept(rows, n) {
      SubsetSize(NotOlder(Of(rows, r.tool), r.createdAt), Of(some, r.tool));
    }
  }

  /** Cleaning up again deletes nothing. */
  lemma CleanupIsIdempotent(rows: set<Log>, n: nat)
    ensures Kept(Kept(rows, n), n) == Kept(rows, n)
  {
    forall r | r in Kept(rows, n) ensures r in Kept(Kept(rows, n), n) {
      SubsetSize(NotOlder(Of(Kept(rows, n), r.tool), r.createdAt), NotOlder(Of(rows, r.tool), r.createdAt));
    }
  }
}
