# zero-trust-mysql evidence checks, modelled in Dafny

The zero-trust-mysql scaffold has two pieces of logic that judge evidence. The rest is
file generation, CI configuration, Terraform and shell scripts.

- **Audit hash-chain linkage check** (`scripts/chain_verify.py`). It reads the rows of
  `audit_events` in `id` order as `id`, `HEX(prev_hash)` and `HEX(curr_hash)`. It keeps in
  `prev` the current-hash of the last accepted row. The first row whose previous-hash
  differs from a truthy `prev` is a break: the script prints `BREAK at <id>` and stops
  reading. It ends by printing `OK` or `FAIL`. Hashes are never recomputed, so only the
  linkage is checked. `test.py` carries a second copy of the same script text in the
  variable `chain_verify` (lines 355-367). Unlike the other generated scripts, that text
  is never passed to `write`, so the scaffold does not write it out.
- **MySQL hardening policy** (the Rego package `mysql.hardening` embedded in `test.py`).
  It is meant to be run by Conftest over the JSON snapshot of server variables made by
  the collector script. The rules take effect only when Conftest is pointed at the
  `mysql.hardening` namespace. The repository's own invocations (the CI step at
  `test.py:63` and the Makefile target at `test.py:285`) pass no `--namespace` or
  `--all-namespaces`, so Conftest looks only in `main` and never evaluates these rules.
  The model states what the rules decide when they are run. Four independent `deny` bodies each add one fixed message: secure transport must be
  `ON`, `local_infile` must be `OFF`, `skip_name_resolve` must be `ON`, and `sql_mode` must
  contain `STRICT_ALL_TABLES`. An empty `deny` set means the snapshot complies.

Files:

- `wrappers.dfy`: `Option`, which stands for Python's `None` and SQL's NULL.
- `audit_chain.dfy` (module `AuditChain`): the row model and the loop as a method
  (`Verify`). The specification functions are `FirstBreakFrom`/`FirstBreak` (the index of
  the first breaking row), `ChainReport` (verdict and reported id) and `RowsConsumed` (how
  many rows the loop takes from the cursor). The lemmas state what the check does and
  does not detect.
- `mysql_hardening.dfy` (module `MysqlHardening`): Rego's `indexof`, the `contains`
  helper, the four rules, the `deny` set, and lemmas per rule and about the set as a whole.
- `scaffold_chain.dfy` (module `ScaffoldChain`): the loop embedded in `test.py`, proved
  to report exactly what `AuditChain.ChainReport` says. This makes it equivalent to the
  standalone script.

Modelling decisions:

- The hash columns are `Option<string>`. `HEX()` of a NULL column is NULL, and the
  driver returns `None` for it. Python truthiness of `prev` is `Truthy`: `None` and the
  empty string are both false. So a row after one whose `ch` is NULL or empty is not
  checked at all. The test compares `prev` with the row's `ph` as values, so a NULL `ph`
  after a truthy `prev` is a break.
- The loop body is lines 10-12 of `scripts/chain_verify.py`, and line 13 runs after the
  loop. The indentation of that text is flattened in the source file: the `if` after
  `for r in cur:` is not indented, in both copies. Python rejects such a file with an
  IndentationError before any row is read, so the script as written prints neither `OK`
  nor `FAIL`. The model follows the structure the statements evidently have.
- A missing snapshot variable follows Rego's "undefined" semantics. A `!=` body on an
  absent variable does not succeed. `not contains(input.sql_mode, …)` on an absent
  `sql_mode` does succeed. No "missing evidence" message exists in the policy, and the
  model adds none.
- The code has no INCONCLUSIVE outcome, no ordering or gap check on `id`, and no
  case-insensitive comparison of hashes. The model follows the code: an empty row
  sequence is `OK`, and hex strings are compared exactly.

## Model

| member | source | states |
|---|---|---|
| AuditChain.FirstBreakFrom | zero-trust-mysql/scripts/chain_verify.py:9-11 | the result is the first index at or after `k` where a truthy `prev` differs from the row's `ph`; no row before it (or no row at all, for `None`) breaks |
| AuditChain.Verify | zero-trust-mysql/scripts/chain_verify.py:7-13 | the loop reports `FAIL` with the id of the first breaking row, or `OK` with no `BREAK at` line; it pulls rows up to and including the first break and no more |
| AuditChain.FirstBreakIs | zero-trust-mysql/scripts/chain_verify.py:10-11 | a breaking row with no break before it is the reported break: `FAIL`, its id, and the loop stops after it |
| AuditChain.NoBreakMeansNone | zero-trust-mysql/scripts/chain_verify.py:8-13 | when no row breaks, `ok` stays true, the verdict is `OK` and every row is read |
| AuditChain.EmptyIsOk | zero-trust-mysql/scripts/chain_verify.py:8-13 | an empty cursor gives `OK` and reads nothing |
| AuditChain.FailIffSomeBreak | zero-trust-mysql/scripts/chain_verify.py:10-13 | `FAIL` if and only if some row breaks; a `BREAK at` id is reported if and only if the verdict is `FAIL` |
| AuditChain.OkIffCheckedLinksHold | zero-trust-mysql/scripts/chain_verify.py:10-13 | `OK` if and only if every row whose predecessor has a non-NULL, non-empty `ch` carries that `ch` as its `ph` |
| AuditChain.LinkedIsOk | zero-trust-mysql/scripts/chain_verify.py:10-13 | a sequence in which every row after the first names its predecessor's `ch` is reported `OK` and is read to the end |
| AuditChain.UncheckedPhIrrelevant | zero-trust-mysql/scripts/chain_verify.py:7-12 | the `ph` of a row examined while `prev` is falsy (the first row, or a row after an empty or NULL `ch`) does not affect the report or the rows read |
| AuditChain.FirstPhIgnored | zero-trust-mysql/scripts/chain_verify.py:7-10 | the first row's `ph` is never compared, because `prev` starts as `None` |
| AuditChain.LaterRowsIgnored | zero-trust-mysql/scripts/chain_verify.py:11 | after a break, rows appended later change neither the report nor the number of rows read |
| AuditChain.PrefixOfOkIsOk | zero-trust-mysql/scripts/chain_verify.py:9-13 | every prefix of a sequence reported `OK` is reported `OK` |
| AuditChain.TamperedChDetected | zero-trust-mysql/scripts/chain_verify.py:10-12 | in a linked sequence, replacing a row's `ch` by a different non-empty value is reported as a break at the next row's id |
| AuditChain.BlankedChUndetected | zero-trust-mysql/scripts/chain_verify.py:10-12 | in a linked sequence, making any row's `ch` empty or NULL is never detected: the verdict stays `OK` and every row is read |
| AuditChain.LastChUnchecked | zero-trust-mysql/scripts/chain_verify.py:10-12 | the last row's `ch` is never compared with anything: changing it changes neither the report nor the rows read |
| AuditChain.TamperedPhDetected | zero-trust-mysql/scripts/chain_verify.py:10-11 | in a linked sequence, changing the `ph` of a row whose predecessor has a non-empty `ch` is reported as a break at that row's id |
| AuditChain.ConcreteScenarios | zero-trust-mysql/scripts/chain_verify.py:7-13 | three linked rows give `OK`; a wrong `ph` on row 2 gives `FAIL` at id 2 after reading two rows |
| ScaffoldChain.Verify | zero-trust-mysql/test.py:361-367 | the embedded copy of the loop reports and reads exactly what the standalone script's specification says |
| MysqlHardening.IndexOfFrom | zero-trust-mysql/test.py:136 | `indexof` returns the first index at or after `k` where the substring occurs, or -1 when it occurs nowhere from `k` on |
| MysqlHardening.Contains | zero-trust-mysql/test.py:135-137 | `contains(str, substr)` holds if and only if `substr` occurs in `str` at some index |
| MysqlHardening.Deny | zero-trust-mysql/test.py:115-133 | the `deny` set holds nothing but the four policy messages |
| MysqlHardening.DenyAtMostFour | zero-trust-mysql/test.py:115-133 | each rule adds at most one message, so `deny` has at most four elements |
| MysqlHardening.DenyIsFiredMessages | zero-trust-mysql/test.py:115-133 | a rule's message is in `deny` if and only if its body succeeds, and every message in `deny` comes from a rule that fires |
| MysqlHardening.SecureTransportRule | zero-trust-mysql/test.py:115-118 | "require_secure_transport must be ON" is denied if and only if the variable is present and not `ON` |
| MysqlHardening.LocalInfileRule | zero-trust-mysql/test.py:120-123 | "local_infile must be OFF" is denied if and only if the variable is present and not `OFF` |
| MysqlHardening.SkipNameResolveRule | zero-trust-mysql/test.py:125-128 | "skip_name_resolve must be ON" is denied if and only if the variable is present and not `ON` |
| MysqlHardening.SqlModeRule | zero-trust-mysql/test.py:130-137 | "sql_mode must include STRICT_ALL_TABLES" is denied if and only if `sql_mode` is absent or has no occurrence of `STRICT_ALL_TABLES` |
| MysqlHardening.CompliantIff | zero-trust-mysql/test.py:115-137 | `deny` is empty if and only if the three exact-value variables are `ON`/`OFF`/`ON` where present and `sql_mode` is present and contains `STRICT_ALL_TABLES` |
| MysqlHardening.EmptySnapshotDeny | zero-trust-mysql/test.py:115-133 | an empty snapshot is denied by the `sql_mode` rule alone |
| MysqlHardening.FiresReadsOnlyItsKey | zero-trust-mysql/test.py:115-133 | whether a rule fires depends only on the one variable it reads |
| MysqlHardening.OtherKeysIgnored | zero-trust-mysql/test.py:115-133 | snapshots that agree on the four policy variables get the same `deny` set, whatever else they hold (such as `_ts`) |
| MysqlHardening.RulesIndependent | zero-trust-mysql/test.py:115-133 | changing or removing one rule's variable changes no other rule's outcome, nor whether any other rule's message is in `deny` |
| MysqlHardening.ContainsIsSubstring | zero-trust-mysql/test.py:135-137 | `contains` matches a substring inside a longer mode name and is case-sensitive |
| MysqlHardening.HardenedSnapshotComplies | zero-trust-mysql/test.py:115-137 | a fully hardened snapshot whose `sql_mode` lists `STRICT_ALL_TABLES` among other modes complies |
| MysqlHardening.SecureTransportOffDenied | zero-trust-mysql/test.py:115-137 | a snapshot that meets every rule except secure transport (`OFF`) is denied by that rule alone |

## Left out

- The MySQL connection, its credentials, the cursor and the `SELECT … ORDER BY id` query
  (`scripts/chain_verify.py:3-6`). The model takes the already ordered rows as a sequence.
  The `table_name` and `action` columns are not read by the check and are not modelled.
- `HEX()` encoding and the unused `hashlib`/`binascii` imports. Hashes are opaque strings
  compared exactly.
- Printing. The `BREAK at` line is the `breakAt` field of the report, and the final
  `OK`/`FAIL` line is its `verdict`. The script's exit status is 0 either way, and exceptions
  from the driver are not modelled.
- The cursor's laziness. The number of rows the loop pulls is returned as `consumed`
  rather than observed on a live cursor.
- The Rego/Conftest runtime, its namespace selection and its process exit status. The
  policy is modelled with Rego v0 semantics, in which its `deny[msg] { … }` syntax is
  valid; current Conftest parses Rego v1 by default, which rejects that syntax. Snapshot values are
  strings, as the collector writes them.
- IndexOfFrom: with an empty search string it returns `k`, so `Contains(s, "")` holds,
  whereas OPA's `indexof` rejects an empty search string with an error. The policy only
  ever searches for the literal `STRICT_ALL_TABLES`, so `Deny` is not affected.
- Indexing is by `char`, which in Dafny is a Unicode scalar value, as `indexof` indexes
  by code point. No encoding or normalisation is modelled.
- The scaffold's `write` helper, the CI workflow, the gitleaks/semgrep configuration,
  Terraform, the Makefile, the docs and the backup, restore, collector and OpenSCAP
  scripts. These are all file generation or external tools.
