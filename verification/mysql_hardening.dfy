/**
 * The `mysql.hardening` policy embedded in zero-trust-mysql/test.py, meant to be
 * evaluated by Conftest against the JSON snapshot of MySQL server variables written
 * by the collector script. The rules take effect only when Conftest is pointed at the
 * `mysql.hardening` namespace; the repository's own invocations (the CI step and the
 * Makefile's `policy` target) pass no namespace, so Conftest looks only in `main` and
 * never evaluates them. This module states what the rules decide when they are run.
 *
 * `deny` is a partial set rule: each of its four bodies independently adds one fixed
 * message when it succeeds, and an empty set means the snapshot complies. A body that
 * reads a variable absent from the snapshot meets Rego's "undefined": `!=` on an
 * undefined value does not succeed, so that body adds nothing, while
 * `not contains(...)` on an undefined value does succeed.
 */
module MysqlHardening {

  /** The snapshot: variable name to observed value, as the collector writes it. */
  type Snapshot = map<string, string>

  const SecureTransportKey := "require_secure_transport"
  const LocalInfileKey := "local_infile"
  const SkipNameResolveKey := "skip_name_resolve"
  const SqlModeKey := "sql_mode"

  const StrictAllTables := "STRICT_ALL_TABLES"

  const SecureTransportMsg := "require_secure_transport must be ON"
  const LocalInfileMsg := "local_infile must be OFF"
  const SkipNameResolveMsg := "skip_name_resolve must be ON"
  const SqlModeMsg := "sql_mode must include STRICT_ALL_TABLES"

  /** The four messages the policy can produce. */
  const AllMessages: set<string> := {SecureTransportMsg, LocalInfileMsg, SkipNameResolveMsg, SqlModeMsg}

  /** `sub` occurs in `s` starting at index `i`. */
  predicate OccursAt(s: string, sub: string, i: int)
  {
    0 <= i && i + |sub| <= |s| && s[i..i + |sub|] == sub
  }

  /** Rego's `indexof` searching from index `k`: the first index at or after `k`
      where `sub` occurs, or -1 when there is none. */
  function IndexOfFrom(s: string, sub: string, k: nat): (r: int)
    requires k <= |s|
    ensures r == -1 || (k <= r && OccursAt(s, sub, r))
    ensures forall j :: k <= j && (r == -1 || j < r) ==> !OccursAt(s, sub, j)
    decreases |s| - k
  {
    if k + |sub| > |s| then -1
    else if s[k..k + |sub|] == sub then k
    else IndexOfFrom(s, sub, k + 1)
  }

  /** Rego's `indexof(s, sub)`: the first index of `sub` in `s`, or -1. */
  function IndexOf(s: string, sub: string): int
  {
    IndexOfFrom(s, sub, 0)
  }

  /** The policy's `contains` helper: `indexof(str, substr) >= 0`, which is plain
      substring containment at any position, not a match of a comma-separated token. */
  predicate Contains(str: string, substr: string)
    ensures Contains(str, substr) <==> exists i :: OccursAt(str, substr, i)
  {
    IndexOf(str, substr) >= 0
  }

  /** First rule: `require_secure_transport` is present and not "ON". */
  predicate SecureTransportDenied(input: Snapshot)
  {
    SecureTransportKey in input && input[SecureTransportKey] != "ON"
  }

  /** Second rule: `local_infile` is present and not "OFF". */
  predicate LocalInfileDenied(input: Snapshot)
  {
    LocalInfileKey in input && input[LocalInfileKey] != "OFF"
  }

  /** Third rule: `skip_name_resolve` is present and not "ON". */
  predicate SkipNameResolveDenied(input: Snapshot)
  {
    SkipNameResolveKey in input && input[SkipNameResolveKey] != "ON"
  }

  /** Fourth rule: `contains(input.sql_mode, "STRICT_ALL_TABLES")` does not succeed,
      either because `sql_mode` is absent or because the substring does not occur. */
  predicate SqlModeDenied(input: Snapshot)
  {
    !(SqlModeKey in input && Contains(input[SqlModeKey], StrictAllTables))
  }

  /** The `deny` set: the union of the messages of the rules that fire. */
  function Deny(input: Snapshot): (msgs: set<string>)
    ensures msgs <= AllMessages
  {
    (if SecureTransportDenied(input) then {SecureTransportMsg} else {})
    + (if LocalInfileDenied(input) then {LocalInfileMsg} else {})
    + (if SkipNameResolveDenied(input) then {SkipNameResolveMsg} else {})
    + (if SqlModeDenied(input) then {SqlModeMsg} else {})
  }

  /** `deny` never holds more than one message per rule, so at most four. */
  lemma DenyAtMostFour(input: Snapshot)
    ensures |Deny(input)| <= 4
  {
    var a := if SecureTransportDenied(input) then {SecureTransportMsg} else {};
    var b := if LocalInfileDenied(input) then {LocalInfileMsg} else {};
    var c := if SkipNameResolveDenied(input) then {SkipNameResolveMsg} else {};
    var d := if SqlModeDenied(input) then {SqlModeMsg} else {};
    assert Deny(input) == a + b + c + d;
    assert |a + b| <= |a| + |b|;
    assert |a + b + c| <= |a + b| + |c|;
    assert |a + b + c + d| <= |a + b + c| + |d|;
  }

  /** The snapshot passes the policy: `deny` is empty. */
  predicate Compliant(input: Snapshot)
  {
    Deny(input) == {}
  }

  /** The four `deny` bodies, named by the variable each one reads. */
  datatype Rule = SecureTransport | LocalInfile | SkipNameResolve | SqlMode

  /** The variable a rule reads. */
  function Key(r: Rule): string
  {
    match r
    case SecureTransport => SecureTransportKey
    case LocalInfile => LocalInfileKey
    case SkipNameResolve => SkipNameResolveKey
    case SqlMode => SqlModeKey
  }

  /** The message a rule adds to `deny`. */
  function Message(r: Rule): string
  {
    match r
    case SecureTransport => SecureTransportMsg
    case LocalInfile => LocalInfileMsg
    case SkipNameResolve => SkipNameResolveMsg
    case SqlMode => SqlModeMsg
  }

  /** The body of rule `r` succeeds on `input`. */
  predicate Fires(input: Snapshot, r: Rule)
  {
    match r
    case SecureTransport => SecureTransportDenied(input)
    case LocalInfile => LocalInfileDenied(input)
    case SkipNameResolve => SkipNameResolveDenied(input)
    case SqlMode => SqlModeDenied(input)
  }

  /** Snapshots `a` and `b` hold the same value for variable `k`, or both lack it. */
  predicate AgreeOn(a: Snapshot, b: Snapshot, k: string)
  {
    (k in a <==> k in b) && (k in a ==> a[k] == b[k])
  }

  /** Different rules have different messages (their lengths already differ). */
  lemma MessagesDistinct(r: Rule, q: Rule)
    ensures Message(r) == Message(q) ==> r == q
  {
    assert |SecureTransportMsg| == 35 && |LocalInfileMsg| == 24;
    assert |SkipNameResolveMsg| == 28 && |SqlModeMsg| == 39;
  }

  /** `deny` is exactly the set of messages of the rules that fire: a message is in it
      if and only if its rule fires, and nothing else is. */
  lemma DenyIsFiredMessages(input: Snapshot)
    ensures forall r :: Message(r) in Deny(input) <==> Fires(input, r)
    ensures forall m :: m in Deny(input) ==> exists r :: Message(r) == m && Fires(input, r)
  {
    forall r ensures Message(r) in Deny(input) <==> Fires(input, r) {
      MessagesDistinct(r, SecureTransport);
      MessagesDistinct(r, LocalInfile);
      MessagesDistinct(r, SkipNameResolve);
      MessagesDistinct(r, SqlMode);
    }
    forall m | m in Deny(input) ensures exists r :: Message(r) == m && Fires(input, r) {
      if m == SecureTransportMsg { assert Message(SecureTransport) == m; }
      else if m == LocalInfileMsg { assert Message(LocalInfile) == m; }
      else if m == SkipNameResolveMsg { assert Message(SkipNameResolve) == m; }
      else { assert Message(SqlMode) == m; }
    }
  }

  /** A rule reads only its own variable: snapshots that agree on it agree on whether it fires. */
  lemma FiresReadsOnlyItsKey(a: Snapshot, b: Snapshot, r: Rule)
    requires AgreeOn(a, b, Key(r))
    ensures Fires(a, r) == Fires(b, r)
  {
  }

  /** The first rule's message is denied exactly when `require_secure_transport` is present and not "ON". */
  lemma SecureTransportRule(input: Snapshot)
    ensures SecureTransportMsg in Deny(input) <==>
      SecureTransportKey in input && input[SecureTransportKey] != "ON"
  {
  }

  /** The second rule's message is denied exactly when `local_infile` is present and not "OFF". */
  lemma LocalInfileRule(input: Snapshot)
    ensures LocalInfileMsg in Deny(input) <==>
      LocalInfileKey in input && input[LocalInfileKey] != "OFF"
  {
  }

  /** The third rule's message is denied exactly when `skip_name_resolve` is present and not "ON". */
  lemma SkipNameResolveRule(input: Snapshot)
    ensures SkipNameResolveMsg in Deny(input) <==>
      SkipNameResolveKey in input && input[SkipNameResolveKey] != "ON"
  {
  }

  /** The fourth rule's message is denied exactly when `sql_mode` is absent or has no
      occurrence of `STRICT_ALL_TABLES` at any position. */
  lemma SqlModeRule(input: Snapshot)
    ensures SqlModeMsg in Deny(input) <==>
      SqlModeKey !in input || forall i :: !OccursAt(input[SqlModeKey], StrictAllTables, i)
  {
  }

  /** A snapshot complies exactly when each of the four conditions holds; a missing
      `sql_mode` can never comply, a missing variable of the other three rules can. */
  lemma CompliantIff(input: Snapshot)
    ensures Compliant(input) <==>
      && (SecureTransportKey in input ==> input[SecureTransportKey] == "ON")
      && (LocalInfileKey in input ==> input[LocalInfileKey] == "OFF")
      && (SkipNameResolveKey in input ==> input[SkipNameResolveKey] == "ON")
      && SqlModeKey in input && Contains(input[SqlModeKey], StrictAllTables)
  {
    SecureTransportRule(input);
    LocalInfileRule(input);
    SkipNameResolveRule(input);
  }

  /** An empty snapshot is denied only by the `sql_mode` rule. */
  lemma EmptySnapshotDeny()
    ensures Deny(map[]) == {SqlModeMsg}
  {
  }

  /** Only the four policy variables matter: snapshots that agree on them (whatever
      else they hold, such as the collector's `_ts` timestamp) get the same `deny` set. */
  lemma OtherKeysIgnored(a: Snapshot, b: Snapshot)
    requires forall r :: AgreeOn(a, b, Key(r))
    ensures Deny(a) == Deny(b)
  {
    assert AgreeOn(a, b, Key(SecureTransport)) && AgreeOn(a, b, Key(LocalInfile));
    assert AgreeOn(a, b, Key(SkipNameResolve)) && AgreeOn(a, b, Key(SqlMode));
  }

  /** The rules are independent: changing or removing the variable of rule `r` does not
      change whether any other rule fires, so it can add or remove only `r`'s message. */
  lemma RulesIndependent(input: Snapshot, r: Rule, v: string)
    ensures forall q :: q != r ==> Fires(input[Key(r) := v], q) == Fires(input, q)
    ensures forall q :: q != r ==> Fires(input - {Key(r)}, q) == Fires(input, q)
    ensures forall q :: q != r ==> (Message(q) in Deny(input[Key(r) := v]) <==> Message(q) in Deny(input))
    ensures forall q :: q != r ==> (Message(q) in Deny(input - {Key(r)}) <==> Message(q) in Deny(input))
  {
    forall q | q != r
      ensures Fires(input[Key(r) := v], q) == Fires(input, q)
      ensures Fires(input - {Key(r)}, q) == Fires(input, q)
    {
      assert Key(q) != Key(r);
      FiresReadsOnlyItsKey(input[Key(r) := v], input, q);
      FiresReadsOnlyItsKey(input - {Key(r)}, input, q);
    }
    DenyIsFiredMessages(input);
    DenyIsFiredMessages(input[Key(r) := v]);
    DenyIsFiredMessages(input - {Key(r)});
  }

  /** `contains` is substring containment and is case-sensitive: a longer mode name that
      embeds `STRICT_ALL_TABLES` satisfies it, the lower-case spelling does not. */
  lemma ContainsIsSubstring()
    ensures Contains("NO_STRICT_ALL_TABLES_X", StrictAllTables)
    ensures !Contains("strict_all_tables", StrictAllTables)
  {
    assert OccursAt("NO_STRICT_ALL_TABLES_X", StrictAllTables, 3);
    forall i ensures !OccursAt("strict_all_tables", StrictAllTables, i) {
      if i == 0 { assert "strict_all_tables"[0..17][0] != StrictAllTables[0]; }
    }
  }

  /** A hardened snapshot, whose `sql_mode` lists `STRICT_ALL_TABLES` among other modes, passes. */
  lemma HardenedSnapshotComplies()
    ensures Compliant(map[SecureTransportKey := "ON", LocalInfileKey := "OFF",
                          SkipNameResolveKey := "ON", SqlModeKey := "STRICT_ALL_TABLES,NO_ZERO_DATE"])
  {
    assert OccursAt("STRICT_ALL_TABLES,NO_ZERO_DATE", StrictAllTables, 0);
  }

  /** The same snapshot with secure transport off is denied by that rule alone. */
  lemma SecureTransportOffDenied()
    ensures Deny(map[SecureTransportKey := "OFF", LocalInfileKey := "OFF",
                     SkipNameResolveKey := "ON", SqlModeKey := "STRICT_ALL_TABLES"]) == {SecureTransportMsg}
  {
    assert OccursAt("STRICT_ALL_TABLES", StrictAllTables, 0);
  }
}
