/**
 * The copy of the chain check that zero-trust-mysql/test.py keeps as text in the
 * variable `chain_verify`. Unlike the other generated scripts, the scaffold never
 * passes this text to `write`, so it is not written out. Its loop is written out
 * again here, as the scaffold carries its own text of it, and is proved to report
 * exactly what the standalone script's specification says.
 */
module ScaffoldChain {
  import opened Wrappers
  import opened AuditChain

  /** The embedded loop: same initial `prev` and `ok`, same test, same early `break`. */
  method Verify(rows: seq<AuditRow>) returns (report: Report, consumed: nat)
    ensures report == ChainReport(rows)
    ensures consumed == RowsConsumed(rows)
  {
    var prev: Option<string> := None;
    var ok := true;
    var breakAt: Option<int> := None;
    var i := 0;
    while i < |rows|
      invariant i <= |rows|
      invariant prev == PrevBefore(rows, i)
      invariant NoBreakBefore(rows, i)
    {
      var r := rows[i];
      if Truthy(prev) && prev != r.ph {
        ok := false;
        breakAt := Some(r.id);
        break;
      }
      prev := r.ch;
      i := i + 1;
    }
    report := Report(if ok then OK else FAIL, breakAt);
    if ok {
      consumed := |rows|;
      NoBreakMeansNone(rows);
    } else {
      consumed := i + 1;
      FirstBreakIs(rows, i);
    }
  }
}
