/**
 * The audit hash-chain linkage check of zero-trust-mysql/scripts/chain_verify.py.
 *
 * The script walks the rows of `audit_events` in `id` order, keeping in `prev`
 * the hex current-hash (`ch`) of the last row it accepted. A row whose hex
 * previous-hash (`ph`) differs from a truthy `prev` is a break: the script
 * reports its id and stops. Hashes are never recomputed; only the linkage is
 * checked, and hex strings are compared exactly.
 */
module AuditChain {
  import opened Wrappers

  /** One row of the query: `id`, `HEX(prev_hash) ph`, `HEX(curr_hash) ch`.
      `HEX` of a NULL column is NULL, which the driver hands over as `None`. */
  datatype AuditRow = AuditRow(id: int, ph: Option<string>, ch: Option<string>)

  /** The line printed last: `OK` or `FAIL`. */
  datatype Verdict = OK | FAIL

  /** What one run reports: the verdict and the id of the `BREAK at` line, if one was printed. */
  datatype Report = Report(verdict: Verdict, breakAt: Option<int>)

  /** Python truthiness of `prev`: `None` and the empty string are false. */
  predicate Truthy(v: Option<string>)
  {
    v.Some? && v.value != ""
  }

  /** The value `prev` holds when row `i` is examined, provided no earlier row broke
      the chain: `None` before the first row, the previous row's `ch` afterwards. */
  function PrevBefore(rows: seq<AuditRow>, i: nat): Option<string>
    requires i <= |rows|
  {
    if i == 0 then None else rows[i - 1].ch
  }

  /** Row `i` fails the linkage test: `prev` is truthy and differs from the row's `ph`. */
  predicate BreaksAt(rows: seq<AuditRow>, i: nat)
    requires i < |rows|
  {
    Truthy(PrevBefore(rows, i)) && PrevBefore(rows, i) != rows[i].ph
  }

  /** No row before index `n` breaks the chain. */
  predicate NoBreakBefore(rows: seq<AuditRow>, n: nat)
    requires n <= |rows|
  {
    forall j :: 0 <= j < n ==> !BreaksAt(rows, j)
  }

  /** The index of the first breaking row at or after `k`, if there is one. */
  function FirstBreakFrom(rows: seq<AuditRow>, k: nat): (r: Option<nat>)
    requires k <= |rows|
    ensures r.Some? ==> k <= r.value < |rows| && BreaksAt(rows, r.value)
    ensures forall j :: k <= j < (if r.Some? then r.value else |rows|) ==> !BreaksAt(rows, j)
    decreases |rows| - k
  {
    if k == |rows| then None
    else if BreaksAt(rows, k) then Some(k)
    else FirstBreakFrom(rows, k + 1)
  }

  /** The index of the first breaking row of the whole sequence, if there is one. */
  function FirstBreak(rows: seq<AuditRow>): Option<nat>
  {
    FirstBreakFrom(rows, 0)
  }

  /** What the script reports for `rows`: `FAIL` with the id of the first breaking row, or `OK`. */
  function ChainReport(rows: seq<AuditRow>): Report
  {
    match FirstBreak(rows)
    case None => Report(OK, None)
    case Some(i) => Report(FAIL, Some(rows[i].id))
  }

  /** How many rows the loop pulls from the cursor: up to and including the first break, or all of them. */
  function RowsConsumed(rows: seq<AuditRow>): nat
  {
    match FirstBreak(rows)
    case None => |rows|
    case Some(i) => i + 1
  }

  /** The script's loop. `consumed` counts the rows taken from the cursor. */
  method Verify(rows: seq<AuditRow>) returns (report: Report, consumed: nat)
    ensures report == ChainReport(rows)
    ensures consumed == RowsConsumed(rows) <= |rows|
  {
    var prev: Option<string> := None;
    var ok := true;
    var breakAt: Option<int> := None;
    consumed := 0;
    while consumed < |rows|
      invariant consumed <= |rows|
      invariant prev == PrevBefore(rows, consumed)
      invariant NoBreakBefore(rows, consumed)
      invariant ok && breakAt == None
    {
      var r := rows[consumed];
      consumed := consumed + 1;
      if Truthy(prev) && prev != r.ph {
        ok := false;
        breakAt := Some(r.id);
        break;
      }
      prev := r.ch;
    }
    report := Report(if ok then OK else FAIL, breakAt);
    if ok {
      NoBreakMeansNone(rows);
    } else {
      FirstBreakIs(rows, consumed - 1);
    }
  }

  /** The first break is unique: a breaking row with none before it is the first break. */
  lemma FirstBreakIs(rows: seq<AuditRow>, k: nat)
    requires k < |rows| && BreaksAt(rows, k) && NoBreakBefore(rows, k)
    ensures FirstBreak(rows) == Some(k)
    ensures ChainReport(rows) == Report(FAIL, Some(rows[k].id))
    ensures RowsConsumed(rows) == k + 1
  {
  }

  /** With no breaking row at all, there is no first break. */
  lemma NoBreakMeansNone(rows: seq<AuditRow>)
    requires NoBreakBefore(rows, |rows|)
    ensures FirstBreak(rows) == None
    ensures ChainReport(rows) == Report(OK, None)
    ensures RowsConsumed(rows) == |rows|
  {
  }

  /** Every row after the first names the preceding row's `ch` as its `ph`. */
  predicate Linked(rows: seq<AuditRow>)
  {
    forall i :: 1 <= i < |rows| ==> rows[i].ph == rows[i - 1].ch
  }

  /** Two row sequences whose rows break at the same places have the same first break. */
  lemma SameBreaksSameFirst(a: seq<AuditRow>, b: seq<AuditRow>, n: nat)
    requires n <= |a| && n <= |b|
    requires forall j :: 0 <= j < n ==> BreaksAt(a, j) == BreaksAt(b, j)
    requires FirstBreak(a).Some? && FirstBreak(a).value < n
    ensures FirstBreak(b) == FirstBreak(a)
  {
    FirstBreakIs(b, FirstBreak(a).value);
  }

  /** An empty cursor gives `OK`: `ok` starts true and the loop body never runs. */
  lemma EmptyIsOk()
    ensures ChainReport([]) == Report(OK, None) && RowsConsumed([]) == 0
  {
  }

  /** The verdict is `FAIL` exactly when some row breaks the chain, and a `BREAK at`
      line is printed exactly when the verdict is `FAIL`. */
  lemma FailIffSomeBreak(rows: seq<AuditRow>)
    ensures ChainReport(rows).verdict == FAIL <==> exists i :: 0 <= i < |rows| && BreaksAt(rows, i)
    ensures ChainReport(rows).breakAt.Some? <==> ChainReport(rows).verdict == FAIL
  {
    if ChainReport(rows).verdict == OK {
      forall i | 0 <= i < |rows| ensures !BreaksAt(rows, i) { }
    }
  }

  /** The verdict is `OK` exactly when every row whose predecessor has a non-empty,
      non-NULL `ch` names that `ch` as its `ph`. */
  lemma OkIffCheckedLinksHold(rows: seq<AuditRow>)
    ensures ChainReport(rows).verdict == OK <==>
      forall i :: 1 <= i < |rows| && Truthy(rows[i - 1].ch) ==> rows[i].ph == rows[i - 1].ch
  {
    FailIffSomeBreak(rows);
    forall i | 1 <= i < |rows|
      ensures BreaksAt(rows, i) <==> Truthy(rows[i - 1].ch) && rows[i].ph != rows[i - 1].ch
    {
    }
    if |rows| > 0 { assert !BreaksAt(rows, 0); }
  }

  /** A fully linked sequence is reported `OK`, with no `BREAK at` line. */
  lemma LinkedIsOk(rows: seq<AuditRow>)
    requires Linked(rows)
    ensures ChainReport(rows) == Report(OK, None)
    ensures RowsConsumed(rows) == |rows|
  {
    assert NoBreakBefore(rows, |rows|) by {
      forall j | 0 <= j < |rows| ensures !BreaksAt(rows, j) {
        if j > 0 { assert rows[j].ph == rows[j - 1].ch; }
      }
    }
    NoBreakMeansNone(rows);
  }

  /** A row whose `prev` is falsy is never compared: its `ph` can be anything. This covers
      the first row (`prev` starts as `None`) and every row after one whose `ch` is
      empty or NULL. */
  lemma UncheckedPhIrrelevant(rows: seq<AuditRow>, i: nat, p: Option<string>)
    requires i < |rows| && !Truthy(PrevBefore(rows, i))
    ensures ChainReport(rows[i := rows[i].(ph := p)]) == ChainReport(rows)
    ensures RowsConsumed(rows[i := rows[i].(ph := p)]) == RowsConsumed(rows)
  {
    var edited := rows[i := rows[i].(ph := p)];
    assert forall j :: 0 <= j < |rows| ==> BreaksAt(edited, j) == BreaksAt(rows, j) by {
      forall j | 0 <= j < |rows| ensures BreaksAt(edited, j) == BreaksAt(rows, j) {
        assert PrevBefore(edited, j) == PrevBefore(rows, j);
      }
    }
    if FirstBreak(rows).Some? {
      SameBreaksSameFirst(rows, edited, |rows|);
    } else {
      NoBreakMeansNone(edited);
    }
  }

  /** The first row's `ph` is never compared to anything. */
  lemma FirstPhIgnored(rows: seq<AuditRow>, p: Option<string>)
    requires |rows| > 0
    ensures ChainReport(rows[0 := rows[0].(ph := p)]) == ChainReport(rows)
  {
    UncheckedPhIrrelevant(rows, 0, p);
  }

  /** Once the chain breaks, the rows after the break are never looked at: appending
      rows changes neither the report nor how many rows are consumed. */
  lemma LaterRowsIgnored(rows: seq<AuditRow>, tail: seq<AuditRow>)
    requires FirstBreak(rows).Some?
    ensures ChainReport(rows + tail) == ChainReport(rows)
    ensures RowsConsumed(rows + tail) == RowsConsumed(rows)
  {
    var all := rows + tail;
    forall j | 0 <= j < |rows| ensures BreaksAt(all, j) == BreaksAt(rows, j) {
      assert all[j] == rows[j];
      if j > 0 { assert all[j - 1] == rows[j - 1]; }
    }
    SameBreaksSameFirst(rows, all, |rows|);
  }

  /** Every prefix of a sequence reported `OK` is reported `OK`. */
  lemma PrefixOfOkIsOk(rows: seq<AuditRow>, tail: seq<AuditRow>)
    requires ChainReport(rows + tail).verdict == OK
    ensures ChainReport(rows) == Report(OK, None)
  {
    if FirstBreak(rows).Some? {
      LaterRowsIgnored(rows, tail);
    }
  }

  /** Overwriting the `ch` of a row of a linked sequence with a different non-empty
      value is detected at the next row, which the report names. */
  lemma TamperedChDetected(rows: seq<AuditRow>, i: nat, c: string)
    requires Linked(rows) && i + 1 < |rows|
    requires c != "" && Some(c) != rows[i].ch
    ensures ChainReport(rows[i := rows[i].(ch := Some(c))]) == Report(FAIL, Some(rows[i + 1].id))
    ensures RowsConsumed(rows[i := rows[i].(ch := Some(c))]) == i + 2
  {
    var edited := rows[i := rows[i].(ch := Some(c))];
    forall j | 0 <= j <= i ensures !BreaksAt(edited, j) {
      if j > 0 { assert edited[j].ph == rows[j].ph == rows[j - 1].ch == edited[j - 1].ch; }
    }
    assert rows[i + 1].ph == rows[i].ch;
    FirstBreakIs(edited, i + 1);
  }

  /** The blind spot of the check: blanking the `ch` of any row of a linked sequence
      (making it empty or NULL) is never detected, because the next row is then not
      compared at all. */
  lemma BlankedChUndetected(rows: seq<AuditRow>, i: nat, c: Option<string>)
    requires Linked(rows) && i < |rows| && !Truthy(c)
    ensures ChainReport(rows[i := rows[i].(ch := c)]) == Report(OK, None)
    ensures RowsConsumed(rows[i := rows[i].(ch := c)]) == |rows|
  {
    var edited := rows[i := rows[i].(ch := c)];
    forall j | 0 <= j < |edited| ensures !BreaksAt(edited, j) {
      if 0 < j && j != i + 1 {
        assert edited[j].ph == rows[j].ph == rows[j - 1].ch == edited[j - 1].ch;
      }
    }
    NoBreakMeansNone(edited);
  }

  /** A second blind spot: the last row's `ch` is only ever stored in `prev`, never
      compared, so changing it is never detected. */
  lemma LastChUnchecked(rows: seq<AuditRow>, c: Option<string>)
    requires |rows| > 0
    ensures ChainReport(rows[|rows| - 1 := rows[|rows| - 1].(ch := c)]) == ChainReport(rows)
    ensures RowsConsumed(rows[|rows| - 1 := rows[|rows| - 1].(ch := c)]) == RowsConsumed(rows)
  {
    var edited := rows[|rows| - 1 := rows[|rows| - 1].(ch := c)];
    forall j | 0 <= j < |rows| ensures BreaksAt(edited, j) == BreaksAt(rows, j) {
      assert PrevBefore(edited, j) == PrevBefore(rows, j);
    }
    if FirstBreak(rows).Some? {
      SameBreaksSameFirst(rows, edited, |rows|);
    } else {
      NoBreakMeansNone(edited);
    }
  }

  /** Overwriting the `ph` of a checked row of a linked sequence is detected at that row. */
  lemma TamperedPhDetected(rows: seq<AuditRow>, i: nat, p: Option<string>)
    requires Linked(rows) && 0 < i < |rows|
    requires Truthy(rows[i - 1].ch) && p != rows[i].ph
    ensures ChainReport(rows[i := rows[i].(ph := p)]) == Report(FAIL, Some(rows[i].id))
    ensures RowsConsumed(rows[i := rows[i].(ph := p)]) == i + 1
  {
    var edited := rows[i := rows[i].(ph := p)];
    forall j | 0 <= j < i ensures !BreaksAt(edited, j) {
      if j > 0 { assert edited[j].ph == rows[j].ph == rows[j - 1].ch == edited[j - 1].ch; }
    }
    FirstBreakIs(edited, i);
  }

  /** Three linked rows are reported `OK`; a wrong `ph` on the second row is reported
      as a break at id 2, and the third row is never pulled. */
  lemma ConcreteScenarios()
    ensures ChainReport([AuditRow(1, Some(""), Some("H1")), AuditRow(2, Some("H1"), Some("H2")),
                         AuditRow(3, Some("H2"), Some("H3"))]) == Report(OK, None)
    ensures ChainReport([AuditRow(1, Some(""), Some("H1")), AuditRow(2, Some("WRONG"), Some("H2")),
                         AuditRow(3, Some("H2"), Some("H3"))]) == Report(FAIL, Some(2))
    ensures RowsConsumed([AuditRow(1, Some(""), Some("H1")), AuditRow(2, Some("WRONG"), Some("H2")),
                          AuditRow(3, Some("H2"), Some("H3"))]) == 2
  {
    var good := [AuditRow(1, Some(""), Some("H1")), AuditRow(2, Some("H1"), Some("H2")),
                 AuditRow(3, Some("H2"), Some("H3"))];
    LinkedIsOk(good);
    var bad := [AuditRow(1, Some(""), Some("H1")), AuditRow(2, Some("WRONG"), Some("H2")),
                AuditRow(3, Some("H2"), Some("H3"))];
    assert BreaksAt(bad, 1);
    FirstBreakIs(bad, 1);
  }
}
