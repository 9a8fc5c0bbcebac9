# Academic-warning engine: a Dafny model

This project models the academic-warning engine of the records backend in
`backend/app.py` and proves properties about it:

- **Rules.** `WarningRule` rows are seeded on first use by
  `_ensure_warning_rule`. They are listed in Code order, and the admin
  create and delete handlers add and remove them.
- **Scan.** `warning_scan` aggregates each student's final transcript rows
  into a credit-weighted GPA on the 4-point scale and a count of owed
  credits. It then opens a `WarningCase` for every breach of the
  `GPA_BELOW` or `DEBT_OVER` rule that has no open case yet.
- **Cases.** `warning_cases` lists cases newest first, with a status
  filter and a clamped page and size. `warning_close` closes one case.
- **Configuration.** `api_put_configs` upserts the allowed configuration
  keys, and `api_get_configs` reads them back.
- **Helpers.** `truthy` and `_digits_to_int` are modelled over strings.

Modules, in dependency order:

| file | module | what it holds |
|---|---|---|
| `wrappers.dfy` | `Wrappers` | `Option` and `Result` |
| `text.dfy` | `Text` | Python's `strip`, ASCII `upper`/`lower`, `truthy`, `_digits_to_int` |
| `aggregation.dfy` | `Aggregation` | the grouped S / W / DebtTC query with SQL NULL semantics, and reference sums without NULLs |
| `warning_model.dfy` | `WarningModel` | rule and case rows, table invariants, and the scan as a function of the case table (`ScanAppend`) with its lemmas |
| `case_listing.dfy` | `CaseListing` | `warning_cases` as a function of the case table |
| `rule_listing.dfy` | `RuleListing` | `warning_rules_list`: Code order and a sort proved to be an ordered permutation |
| `warning_store.dfy` | `WarningStore` | class `WarningDb`, which holds the two tables and the handlers that change them |
| `config.dfy` | `Config` | class `ConfigStore`, the SystemConfig table, with `api_put_configs` and `api_get_configs` |

The handlers that change a table are methods of a class. Each has a
`modifies` clause and states its new table in terms of a specification
function of the old one:

- `_ensure_warning_rule` against `Seeded`;
- the scan loop against `ScanAppend`;
- `api_put_configs` against `Accepted`.

The properties are proved about those functions. Two invariants of
`WarningDb.Valid()` are kept by every method:

- Rule Ids increase and Codes are unique.
- Case Ids increase, and at most one case is open per (RuleId, MaSV) pair.

SQL NULL is `None`. `SUM` skips NULL terms and is NULL when every term is
NULL. `float(x or 0.0)` reads NULL as 0.

Behaviour of the code worth knowing:

- **Empty status.** An empty `status` argument lists the open cases, not
  every case, because `(status or "open")` replaces it. Only a
  whitespace-only status removes the filter.
- **GPA denominator.** W sums credits-or-0 over every final row, graded or
  not. A final row with a NULL grade adds its credits to the denominator
  and nothing to S. A course missing from the course table weighs 0.
  The GPA is therefore not a mean over graded rows only
  (`Aggregation.UngradedRow`).
- **Duplicate Codes.** The Code check of `warning_rules_create`
  upper-cases only the new Code. Stored Codes are compared exactly as
  stored.

## Model

| member | source | states |
|---|---|---|
| WarningStore.WarningDb.EnsureRule | backend/app.py:151-157 | The rule table becomes `Seeded(old table)`. The result is the stored rule of that Code when one exists, with its stored threshold and no new row. Otherwise it is a new active rule with the given threshold and the next Id. The invariants are kept. |
| WarningModel.Seeded | backend/app.py:151-157 | The rule table after `_ensure_warning_rule`: the old table is a prefix of the new one, and the new one is longer by one row exactly when no row had the Code. `SeededFinds` and `SeedingIdempotent` pin down which row the lookup then returns. |
| WarningModel.SeededFinds | backend/app.py:151-157 | After seeding, the Code finds the stored rule when there was one, else the new active rule with the seed threshold. Other Codes find what they found before. |
| WarningModel.SeededKeepsValid | backend/app.py:151-157 | Seeding only appends, at most one row, and keeps Ids increasing and Codes unique. |
| WarningModel.SeedingIdempotent | backend/app.py:151-157 | Seeding a Code twice gives the table that seeding it once gives, whatever name or threshold the second call passes. |
| WarningModel.SeedThreshold | backend/app.py:365-367 | `float(cfg.get(key, default))`: the configured value when the key is present, else the default; `Scan` passes the defaults 2.0 and 10. Its partner is `SeedThresholdOnlyReadsKey`. |
| WarningModel.SeedThresholdOnlyReadsKey | backend/app.py:365-367 | Two configurations that agree on a key give the same threshold for it: no other configuration entry affects a rule's seed threshold. |
| WarningStore.WarningDb.EnsureRules | backend/app.py:369-370 | The two seeding calls for two distinct Codes. Each returned rule is the one stored under its Code: its old row if it existed, else an active rule with its seed threshold. The rule counter advances by the number of rules added. |
| WarningStore.WarningDb.Scan | backend/app.py:364-410 | Seeds GPA_BELOW and DEBT_OVER from the configuration or the defaults 2.0 and 10. Existing rules keep their stored thresholds. The case table becomes the old table followed by `ScanAppend` under the stored rules. The count is the number of cases added. Afterwards every breach of a scanned student has an open case for its pair. The rule and case counters advance by the number of rows added. |
| WarningStore.WarningDb.ScanMetrics | backend/app.py:395-406 | The loop over the query rows appends exactly `ScanAppend` of the metrics, in order, against the growing table, and returns how many cases it added; the case counter advances by that number. |
| WarningStore.WarningDb.ScanStudent | backend/app.py:396-406 | One student adds exactly `StudentCases`: the GPA check first, then the debt check. Each inserts only when its rule fires and its pair has no open case. |
| WarningStore.WarningDb.Raise | backend/app.py:397-406 | One guarded insert. When the rule fires and no open case exists for (rule, student), it appends an open, unclosed case with the next Id, the metric value, the level and `now`. Otherwise nothing changes. |
| WarningStore.RescanCreatesNothing | backend/app.py:364-410 | A second scan over the same data creates 0 cases, whatever the configuration is by then. |
| WarningModel.StudentCases | backend/app.py:396-406 | The cases the two checks of one student insert: at most two. `ScanAppendShape` and `ScanAppendSound` say which ones, and only when the rule fires and the pair has no open case. |
| WarningModel.ScanAppend | backend/app.py:395-406 | The cases one scan inserts, visiting the metrics in order against the growing table: at most two per metric. `ScanCovers`, `ScanAppendSound` and `ScanKeepsOneOpen` state what they are. |
| WarningModel.ScanKeepsOneOpen | backend/app.py:397-406 | With at most one open case per (RuleId, MaSV) before a scan, there is at most one after it. |
| WarningModel.ScanCovers | backend/app.py:397-406 | After the scan, every scanned student with `0 < gpa4 < threshold` has an open GPA case. Every scanned student with `debt >= threshold` has an open debt case. |
| WarningModel.ScanAppendSound | backend/app.py:397-405 | Every appended case belongs to a scanned student whose metric breaches its rule: (a) a GPA case holds that GPA4, is `critical` and has `0 < gpa4 < threshold`; (b) a debt case holds the debt, is `warning` and has `debt >= threshold`. |
| WarningModel.CoveredScanAppendsNothing | backend/app.py:397-406 | When every breach already has an open case, the scan appends nothing. |
| WarningModel.ScanAppendShape | backend/app.py:400-405 | A scan appends at most two cases per student. They are numbered consecutively from the next Id, open, unclosed and stamped `now`. |
| WarningModel.ScanIgnoresActive | backend/app.py:397-405 | The scan does not read the Active flag: changing it on either rule changes no appended case. |
| WarningModel.ZeroGpaNeverFlagged | backend/app.py:396-397 | A student whose GPA4 is 0 never gets a GPA case, whatever the threshold. Every GPA case records a value strictly between 0 and the threshold. |
| WarningModel.DebtBoundaryFires | backend/app.py:402 | Debt exactly equal to the threshold raises an open debt case: the comparison is inclusive. |
| WarningModel.InsertKeepsCasesValid | backend/app.py:398-405 | Inserting a case with the next Id for a pair without an open case keeps Ids increasing and at most one open case per pair. |
| WarningModel.AppendKeepsOneOpen | backend/app.py:398-400 | An open case added for a pair with no open case keeps at most one open case per pair. |
| Aggregation.GroupSums | backend/app.py:372-379 | The `S`, `W` and `DebtTC` sums of one student's final rows, NULL when no row contributes. `GroupPointsClosedForm`, `GroupWeightClosedForm` and `GroupDebtClosedForm` give each as a plain sum. |
| Aggregation.Gpa4Column | backend/app.py:385 | `S / NULLIF(W, 0)`: NULL when a sum is NULL or the weight is 0. `StudentMetricClosedForm` pins down the value otherwise. |
| Aggregation.StudentMetric | backend/app.py:383-396 | One query row after `float(x or 0.0)`: the GPA and debt of one student. `StudentMetricClosedForm`, `MetricWithinScale` and `WeightedMeanExample` state its value. |
| Aggregation.StudentMetricClosedForm | backend/app.py:372-396 | GPA4 is the grade points of the graded final rows divided by the weight of all final rows, or 0 when that weight is 0. Debt is the credits of final rows graded below 1.0. A student without final rows gets 0 and 0. |
| Aggregation.GroupWeightClosedForm | backend/app.py:374-379 | W is NULL exactly when the student has no final row. Otherwise it is the plain credit total. With W NULL, S and DebtTC are NULL too. |
| Aggregation.GroupPointsClosedForm | backend/app.py:374 | S, when not NULL, is the plain grade-point total. When NULL, that total is 0. |
| Aggregation.GroupDebtClosedForm | backend/app.py:376-396 | DebtTC read through `float(x or 0.0)` is the total credits of final rows graded below 1.0 whose course has a credit count. |
| Aggregation.IgnoredRow | backend/app.py:379 | A row that is not final, or that belongs to another student, leaves all three sums unchanged. |
| Aggregation.UngradedRow | backend/app.py:374-376 | A final row with a NULL grade adds its credits to W and nothing to S or to the debt. |
| Aggregation.MetricWithinScale | backend/app.py:385-396 | With grades in [0, 4] and non-negative credits, GPA4 lies in [0, 4] and debt lies in [0, W]. |
| Aggregation.WeightedMeanExample | backend/app.py:372-396 | Two 3-credit final rows graded 1.5 and 1.0 give GPA4 1.25 and debt 0. |
| Aggregation.Considered | backend/app.py:390-392 | The scanned students are exactly the roster students of the requested class. A missing or empty class filter keeps everyone. |
| Aggregation.Metrics | backend/app.py:381-396 | The query rows: the k-th row is the metric of the k-th considered student, computed from that student's group. `MetricsFollowRoster` and `MetricsCoverRoster` give the two directions of the outer join. |
| Aggregation.MetricsCoverRoster | backend/app.py:386-392 | The outer join drops no student: every roster student of the requested class has its metric among the query rows, and one with no final row appears with GPA 0 and debt 0. |
| Aggregation.MetricsFollowRoster | backend/app.py:386-392 | Every scanned metric belongs to a roster student of the requested class. |
| WarningModel.FindCode | backend/app.py:152 | The lookup by Code returns a row of the table with that Code. It is None exactly when no row has that Code. |
| WarningModel.AppendKeepsRulesValid | backend/app.py:459-460 | Adding a rule with a fresh Code and the next Id keeps Ids increasing and Codes unique. |
| CaseListing.ClampPage | backend/app.py:415 | The page is at least 1, defaults to 1 and keeps any value of at least 1. |
| CaseListing.ClampSize | backend/app.py:416 | The size lies in [1, 100] and defaults to 20. In-range values are kept. Larger values become 100 and smaller values become 1. |
| CaseListing.StatusFilter | backend/app.py:417-419 | The status filter: when there is one, it is non-empty and has no surrounding whitespace. `DefaultFilterIsOpen` and `StatusFilterOfValue` say which value it is. |
| CaseListing.DefaultFilterIsOpen | backend/app.py:417-420 | A missing or empty status lists open cases only. |
| CaseListing.StatusFilterOfValue | backend/app.py:417-420 | A padded status filters on its trimmed text. A whitespace-only status removes the filter. |
| CaseListing.Filtered | backend/app.py:419-420 | The selection holds exactly the cases of the table that match the filter. |
| CaseListing.ListCases | backend/app.py:415-422 | `total` is the number of matching cases. The page holds `min(size, total - offset)` matching cases of the table (none past the end), in strictly decreasing Id order. |
| CaseListing.PageIsRankWindow | backend/app.py:421-422 | The k-th listed case has exactly `offset + k` newer matching cases. A matching case is listed exactly when its number of newer matching cases lies in `[offset, offset + size)`. |
| CaseListing.ClosedCaseNotListedByDefault | backend/app.py:417-434 | Once the case with an Id is closed, the default listing never shows it. |
| WarningStore.WarningDb.Close | backend/app.py:430-437 | An unknown Id gives 404 and no change. Otherwise that case, open or not, gets status `closed` and a ClosedAt of `now`. Every other row and the rule table are unchanged. |
| WarningModel.CaseIndex | backend/app.py:431 | The lookup by Id gives a position holding that Id. It is None exactly when no case has it. |
| RuleListing.SortByCode | backend/app.py:441-446 | The listing is a permutation of the rule table, ordered by Code. |
| RuleListing.InsertKeepsSorted | backend/app.py:442 | Inserting one rule into a Code-ordered list keeps it ordered. |
| RuleListing.CodeLe | backend/app.py:442 | Code order (character by character, a prefix first). `CodeLeTotal`, `CodeLeTransitive` and `CodeLeAntisymmetric` make it a total order. |
| RuleListing.CodeLeTotal | backend/app.py:442 | The Code order is total. |
| RuleListing.CodeLeTransitive | backend/app.py:442 | The Code order is transitive. |
| RuleListing.CodeLeAntisymmetric | backend/app.py:442 | The Code order is antisymmetric. |
| WarningStore.WarningDb.CreateRule | backend/app.py:450-462 | Code is stripped and upper-cased, and Name is stripped. An empty Code or Name gives 400, and a known Code gives 409, both with no change. Otherwise one active rule with the next Id and `float(Threshold or 0)` is appended and its Id returned. The rule counter advances exactly when a rule is added. |
| WarningStore.WarningDb.AddRule | backend/app.py:455-460 | The same checks and insert on an already-normalised Code and Name. |
| WarningStore.NormalizeCode | backend/app.py:452 | The normalised Code has no surrounding whitespace and no lower-case ASCII letter. `NormalizeCodeIdempotent` shows that normalising again changes nothing. |
| WarningStore.NormalizeName | backend/app.py:453 | The normalised Name has no surrounding whitespace. |
| WarningStore.ThresholdArg | backend/app.py:454 | A missing Threshold reads as 0 and a given one is kept. It has no contract of its own; `CreateRule` states that the new rule carries it. |
| WarningStore.NormalizeCodeIdempotent | backend/app.py:452 | A normalised Code is trimmed, has no lower-case ASCII letter, and normalises to itself. |
| WarningStore.WarningDb.DeleteRule | backend/app.py:466-472 | An unknown Id gives 404 and no change. Otherwise exactly that one rule is removed, every other rule stays, and the case table is untouched. |
| WarningModel.RuleIndex | backend/app.py:467 | The lookup by Id gives a position holding that Id. It is None exactly when no rule has it. |
| WarningModel.RemoveKeepsRulesValid | backend/app.py:470 | Removing one rule keeps Ids increasing and Codes unique. |
| Text.Truthy | backend/app.py:89-90 | Membership of the stripped, lower-cased text in the five accepted words. It has no contract of its own; `TruthyWordsAccepted`, `BlankIsNotTruthy`, `OtherWordIsNotTruthy` and the two `Ignores` lemmas pin it down. |
| Text.TruthyIgnoresPadding | backend/app.py:89-90 | Whitespace around the value does not change `truthy`. |
| Text.TruthyIgnoresCase | backend/app.py:89-90 | ASCII letter case does not change `truthy`. |
| Text.TruthyWordsAccepted | backend/app.py:89-90 | "1", "true", "yes", "y" and "on", padded and in upper case too, are truthy. |
| Text.BlankIsNotTruthy | backend/app.py:89-90 | Empty or whitespace-only text is not truthy. |
| Text.OtherWordIsNotTruthy | backend/app.py:89-90 | A trimmed word whose lower-case form is not one of the five is not truthy. |
| Text.StripShape | backend/app.py:90 | `strip()` removes a whitespace prefix and a whitespace suffix and leaves a core with no whitespace at either end. |
| Text.StripOfPadded | backend/app.py:90 | `strip()` of a trimmed string padded with any whitespace gives that string back. |
| Text.DigitsToInt | backend/app.py:551-555 | None for None or a text with no digit, else the value of its digits. It has no contract of its own; `DigitsToIntNone`, `DigitsToIntRoundTrip` and `DigitsToIntBound` pin it down. |
| Text.DecimalValue | backend/app.py:555 | `int` of a digit string. It has no contract of its own; `DecimalValueBound`, `DecimalValueLeadingZero` and `DecimalOfNatToString` pin it down. |
| Text.DigitsToIntNone | backend/app.py:551-555 | The result is None exactly when the value is None or its text holds no digit. |
| Text.DigitsIgnoreStrip | backend/app.py:553-554 | Stripping removes no digit. |
| Text.DigitsToIntRoundTrip | backend/app.py:551-555 | A number's decimal digits, surrounded by any digit-free text, read back as that number. |
| Text.DigitsToIntBound | backend/app.py:551-555 | With k digits in the text, the result is below 10^k. |
| Text.DecimalValueLeadingZero | backend/app.py:555 | A leading zero does not change the value. |
| Config.ConfigStore.PutConfigs | backend/app.py:331-346 | The reply `changed` is `Accepted(values)`, and the table becomes the old table overwritten by `changed`. A missing or empty body changes nothing. Only allowed keys are ever stored. |
| Config.Accepted | backend/app.py:334-343 | The `changed` map of one request. It has no contract of its own; `AcceptedIsLastAllowed`, `AcceptedOnlyAllowed` and `AcceptedLastWins` pin it down. |
| Config.AcceptedIsLastAllowed | backend/app.py:334-343 | `changed` holds exactly the allowed keys of the body. Each maps to the value of its last entry. |
| Config.AcceptedOnlyAllowed | backend/app.py:40-48 | A key outside `ALLOWED_CONFIG_KEYS` is never written. |
| Config.AcceptedLastWins | backend/app.py:343 | An allowed key whose last entry carries `v` is written with `v`. |
| Config.ConfigStore.Values | backend/app.py:325-327 | The read-back has exactly the allowed keys, each with its stored value or "". |
| Config.PutThenGet | backend/app.py:325-346 | After a PUT whose last entry for an allowed key carries `v`, a GET reads `v` for that key. |

## Left out

- HTTP routing, JSON replies, JWT checks, the audit log (`_audit_db`) and
  the response messages are left out. Error replies are the `Error`
  values and their status codes (`HttpStatus`).
- Parsing of the inputs is left out. `float(...)` of configuration and
  request values and `int(...)` of `page` and `size` are not modelled:
  those inputs arrive already parsed. A value that fails to parse raises
  in the source and is not modelled.
- `str(v)` of non-string configuration values is left out: body values
  are strings. A `values` body that is not a dict is not modelled.
- Only ASCII letters are case-mapped. `isdigit()` is taken as ASCII
  `0`-`9`. Unicode case mapping and non-ASCII digits are not modelled.
  The whitespace set of `strip()` is modelled in full.
- Row order is taken from the data. The scan visits the query rows in
  roster order. SQL leaves the order of `q.all()` unspecified, so the
  model fixes one.
- Transactions are left out. These are sequential models: commit,
  rollback and a mid-scan failure are not modelled, and neither is the
  race of two concurrent scans or seeding calls that check and then
  insert. A uniqueness constraint would rule that race out.
- Clock readings (`CreatedAt`, `ClosedAt`) are the parameter `now`.
- `Desc`, `HoTen` and the other display-only columns are left out.
- WarningStore.WarningDb.DeleteRule: Ids come from the counters
  `nextRuleId` and `nextCaseId`, which never reuse an Id. SQLite instead
  gives a new row the largest live Id + 1, so when the newest rule (say a
  seeded one) is deleted and then seeded again it gets its old Id back;
  the open cases left behind by the deleted rule then count for the new
  one and the scan's duplicate check suppresses fresh cases, where the
  model creates them. The mapping and the database are not part of this
  model.
- WarningStore.WarningDb.DeleteRule: the model assumes that deleting a
  rule removes the rule row only and leaves the cases that refer to it in
  the case table (`cases == old(cases)`). Whether the database cascades
  the delete or orphans those cases is set by the table definitions in
  `backend/models.py`, which is not part of this model.
- Python floats and SQLite REAL values are modelled as exact `real`
  numbers. GPA4 is a division (app.py:385) compared against the
  threshold (app.py:397 and 402), and near the threshold a double's
  rounding can flip either comparison. The scan lemmas (`ScanCovers`,
  `ScanAppendSound`, `DebtBoundaryFires`, `MetricWithinScale`) hold in
  exact arithmetic and are not claimed for IEEE 754 doubles.
- CaseListing.ListCases: it requires case Ids to increase in table order.
  The case table's invariant `WarningDb.Valid()` keeps that true.
- The rest of `app.py` is not part of this model: importers, analytics,
  the CSV export, the chat endpoint and login.
