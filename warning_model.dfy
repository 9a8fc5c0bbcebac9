/**
 * The values of the academic-warning engine (WarningRule and WarningCase
 * rows), rule seeding, and the scan's rule evaluation, as functions over
 * the tables. The class in warning_store.dfy updates its tables as these
 * functions say.
 */
module WarningModel {
  import opened Wrappers
  import opened Aggregation

  datatype Level = Critical | Warning

  /** A WarningRule row: Id, Code (unique), Name, Threshold, Active. */
  datatype Rule = Rule(id: nat, code: string, name: string, threshold: real, active: bool)

  /** A WarningCase row; `createdAt` and `closedAt` are opaque clock readings. */
  datatype Case = Case(id: nat, ruleId: nat, student: string, value: real, level: Level,
                       status: string, createdAt: int, closedAt: Option<int>)

  const OpenStatus: string := "open"
  const ClosedStatus: string := "closed"

  const GpaRuleCode: string := "GPA_BELOW"
  const GpaRuleName: string := "GPA dưới ngưỡng"
  const DebtRuleCode: string := "DEBT_OVER"
  const DebtRuleName: string := "Nợ tín chỉ vượt ngưỡng"

  /** The two seeded codes are distinct. */
  lemma SeedCodesDiffer()
    ensures GpaRuleCode != DebtRuleCode
  {
    assert GpaRuleCode[0] != DebtRuleCode[0];
  }

  /** Configuration keys and defaults that seed the two rules (backend/app.py:366-367). */
  const GpaThresholdKey: string := "GPA_TRUNGBINH_THRESHOLD"
  const DebtThresholdKey: string := "TINCHI_NO_CANHCAO_THRESHOLD"
  const DefaultGpaThreshold: real := 2.0
  const DefaultDebtThreshold: real := 10.0

  /** `float(cfg.get(key, default))`, over configuration values already read as numbers. */
  function SeedThreshold(cfg: map<string, real>, key: string, default: real): (t: real)
    ensures key in cfg ==> t == cfg[key]
    ensures key !in cfg ==> t == default
  {
    if key in cfg then cfg[key] else default
  }

  /** The threshold depends on the configuration only through the entry for its own key. */
  lemma SeedThresholdOnlyReadsKey(cfg1: map<string, real>, cfg2: map<string, real>, key: string, default: real)
    requires (key in cfg1 <==> key in cfg2) && (key in cfg1 ==> cfg1[key] == cfg2[key])
    ensures SeedThreshold(cfg1, key, default) == SeedThreshold(cfg2, key, default)
  {
  }

  // ---------------------------------------------------------------------
  // The rule table

  /** `WarningRule.query.filter_by(Code=code).first()`. */
  function FindCode(rules: seq<Rule>, code: string): (r: Option<Rule>)
    ensures r.Some? ==> r.value in rules && r.value.code == code
    ensures r.None? <==> forall k :: 0 <= k < |rules| ==> rules[k].code != code
  {
    if rules == [] then None
    else if rules[0].code == code then Some(rules[0])
    else FindCode(rules[1..], code)
  }

  /** `db.session.get(WarningRule, id)`: the position of the rule with that Id. */
  function RuleIndex(rules: seq<Rule>, id: nat): (r: Option<nat>)
    ensures r.Some? ==> r.value < |rules| && rules[r.value].id == id
    ensures r.None? <==> forall k :: 0 <= k < |rules| ==> rules[k].id != id
  {
    if rules == [] then None
    else if rules[0].id == id then Some(0)
    else match RuleIndex(rules[1..], id)
      case None => None
      case Some(k) => Some(k + 1)
  }

  /** Appending a rule with a fresh Code and the next Id keeps Ids increasing and Codes unique. */
  lemma AppendKeepsRulesValid(rules: seq<Rule>, nextId: nat, r: Rule)
    requires RulesValid(rules, nextId) && r.id == nextId && FindCode(rules, r.code).None?
    ensures RulesValid(rules + [r], nextId + 1)
  {
  }

  /** Deleting one rule keeps Ids increasing and Codes unique. */
  lemma RemoveKeepsRulesValid(rules: seq<Rule>, nextId: nat, k: nat)
    requires RulesValid(rules, nextId) && k < |rules|
    ensures RulesValid(rules[..k] + rules[k + 1..], nextId)
  {
    var after := rules[..k] + rules[k + 1..];
    assert forall i :: 0 <= i < |after| ==> after[i] == rules[if i < k then i else i + 1];
  }

  /** Rule Ids are increasing in table order and below the next Id; Codes are unique. */
  ghost predicate RulesValid(rules: seq<Rule>, nextId: nat) {
    && (forall k :: 0 <= k < |rules| ==> rules[k].id < nextId)
    && (forall i, j :: 0 <= i < j < |rules| ==> rules[i].id < rules[j].id)
    && (forall i, j :: 0 <= i < j < |rules| ==> rules[i].code != rules[j].code)
  }

  /** The rule table after `_ensure_warning_rule(code, name, threshold)`. */
  function Seeded(rules: seq<Rule>, nextId: nat, code: string, name: string, threshold: real): (r: seq<Rule>)
    ensures rules <= r && |r| <= |rules| + 1
    ensures |r| == |rules| <==> FindCode(rules, code).Some?
  {
    if FindCode(rules, code).Some? then rules else rules + [Rule(nextId, code, name, threshold, true)]
  }

  /** The rule table after seeding `c1` and then `c2`; the second new rule, if any, takes the next Id. */
  function SeededTwo(rules: seq<Rule>, nextId: nat, c1: string, n1: string, t1: real,
                     c2: string, n2: string, t2: real): seq<Rule> {
    var mid := Seeded(rules, nextId, c1, n1, t1);
    Seeded(mid, nextId + |mid| - |rules|, c2, n2, t2)
  }

  lemma SeededTwoUnfold(rules: seq<Rule>, nextId: nat, c1: string, n1: string, t1: real,
                        c2: string, n2: string, t2: real, mid: seq<Rule>, midNext: nat)
    requires mid == Seeded(rules, nextId, c1, n1, t1) && midNext == nextId + |mid| - |rules|
    ensures SeededTwo(rules, nextId, c1, n1, t1, c2, n2, t2) == Seeded(mid, midNext, c2, n2, t2)
  {
  }

  lemma {:induction false} FindCodeAppend(rules: seq<Rule>, r: Rule, code: string)
    ensures FindCode(rules + [r], code) ==
            if FindCode(rules, code).Some? then FindCode(rules, code)
            else if r.code == code then Some(r) else None
  {
    if rules == [] {
      assert rules + [r] == [r];
    } else {
      assert (rules + [r])[1..] == rules[1..] + [r];
      FindCodeAppend(rules[1..], r, code);
    }
  }

  /**
   * Seeding returns the stored rule when the code exists (its threshold is
   * not refreshed) and otherwise adds exactly one active rule with the
   * given threshold; rules of other codes are found as before.
   */
  lemma SeededFinds(rules: seq<Rule>, nextId: nat, code: string, name: string, threshold: real, other: string)
    requires other != code
    ensures var after := Seeded(rules, nextId, code, name, threshold);
            && FindCode(after, code) == (if FindCode(rules, code).Some? then FindCode(rules, code)
                                         else Some(Rule(nextId, code, name, threshold, true)))
            && FindCode(after, other) == FindCode(rules, other)
  {
    if FindCode(rules, code).None? {
      FindCodeAppend(rules, Rule(nextId, code, name, threshold, true), code);
      FindCodeAppend(rules, Rule(nextId, code, name, threshold, true), other);
    }
  }

  /** Seeding only appends, at most one rule, and keeps the table invariant. */
  lemma SeededKeepsValid(rules: seq<Rule>, nextId: nat, code: string, name: string, threshold: real)
    requires RulesValid(rules, nextId)
    ensures var after := Seeded(rules, nextId, code, name, threshold);
            && rules <= after && |after| <= |rules| + 1
            && RulesValid(after, nextId + 1)
  {
    if FindCode(rules, code).None? {
      AppendKeepsRulesValid(rules, nextId, Rule(nextId, code, name, threshold, true));
    }
  }

  /** Seeding a code twice is seeding it once, whatever threshold or name the second call passes. */
  lemma SeedingIdempotent(rules: seq<Rule>, n1: nat, n2: nat, code: string,
                          name1: string, name2: string, t1: real, t2: real)
    ensures Seeded(Seeded(rules, n1, code, name1, t1), n2, code, name2, t2) == Seeded(rules, n1, code, name1, t1)
  {
    if FindCode(rules, code).None? {
      FindCodeAppend(rules, Rule(n1, code, name1, t1, true), code);
    }
  }

  // ---------------------------------------------------------------------
  // The case table

  /** `gpa4 > 0 and gpa4 < r_gpa.Threshold` (backend/app.py:397). */
  predicate GpaFires(gpa4: real, threshold: real) {
    0.0 < gpa4 && gpa4 < threshold
  }

  /** `debttc >= r_debt.Threshold` (backend/app.py:402): the boundary fires. */
  predicate DebtFires(debt: real, threshold: real) {
    debt >= threshold
  }

  predicate IsOpenFor(c: Case, ruleId: nat, sid: string) {
    c.ruleId == ruleId && c.student == sid && c.status == OpenStatus
  }

  /** `WarningCase.query.filter_by(RuleId=..., MaSV=..., Status="open").first()` is not None. */
  predicate HasOpen(cases: seq<Case>, ruleId: nat, sid: string) {
    exists k :: 0 <= k < |cases| && IsOpenFor(cases[k], ruleId, sid)
  }

  /** `db.session.get(WarningCase, id)`: the position of the case with that Id. */
  function CaseIndex(cases: seq<Case>, id: nat): (r: Option<nat>)
    ensures r.Some? ==> r.value < |cases| && cases[r.value].id == id
    ensures r.None? <==> forall k :: 0 <= k < |cases| ==> cases[k].id != id
  {
    if cases == [] then None
    else if cases[0].id == id then Some(0)
    else match CaseIndex(cases[1..], id)
      case None => None
      case Some(k) => Some(k + 1)
  }

  /** At most one open case per (RuleId, MaSV). */
  ghost predicate AtMostOneOpen(cases: seq<Case>) {
    forall i, j :: 0 <= i < j < |cases| && cases[i].status == OpenStatus && cases[j].status == OpenStatus
      ==> cases[i].ruleId != cases[j].ruleId || cases[i].student != cases[j].student
  }

  /** Case Ids increase in table order (auto-increment, never deleted). */
  ghost predicate IdsAscending(cases: seq<Case>) {
    forall i, j :: 0 <= i < j < |cases| ==> cases[i].id < cases[j].id
  }

  /** The cases one student adds: GPA_BELOW first, then DEBT_OVER, each only without an open case for its pair. */
  function StudentCases(cases: seq<Case>, nextId: nat, m: Metric, gpa: Rule, debt: Rule, now: int): (r: seq<Case>)
    ensures |r| <= 2
  {
    var g := if GpaFires(m.gpa4, gpa.threshold) && !HasOpen(cases, gpa.id, m.student)
             then [Case(nextId, gpa.id, m.student, m.gpa4, Critical, OpenStatus, now, None)] else [];
    var d := if DebtFires(m.debt, debt.threshold) && !HasOpen(cases + g, debt.id, m.student)
             then [Case(nextId + |g|, debt.id, m.student, m.debt, Warning, OpenStatus, now, None)] else [];
    g + d
  }

  /** The cases one scan appends, visiting the metrics in order against the growing table. */
  function ScanAppend(cases: seq<Case>, nextId: nat, ms: seq<Metric>, gpa: Rule, debt: Rule, now: int): (r: seq<Case>)
    ensures |r| <= 2 * |ms|
    decreases |ms|
  {
    if ms == [] then []
    else
      var prev := ScanAppend(cases, nextId, ms[..|ms| - 1], gpa, debt, now);
      prev + StudentCases(cases + prev, nextId + |prev|, ms[|ms| - 1], gpa, debt, now)
  }

  /** One scan step, unfolded: from the table after `ms[..i]`, the cases of `ms[i]` give the table after `ms[..i + 1]`. */
  lemma ScanAppendStep(cases: seq<Case>, nextId: nat, ms: seq<Metric>, i: nat, gpa: Rule, debt: Rule, now: int,
                       table: seq<Case>)
    requires i < |ms| && table == cases + ScanAppend(cases, nextId, ms[..i], gpa, debt, now)
    ensures table + StudentCases(table, nextId + |table| - |cases|, ms[i], gpa, debt, now)
         == cases + ScanAppend(cases, nextId, ms[..i + 1], gpa, debt, now)
  {
    assert ms[..i + 1][..i] == ms[..i];
  }

  lemma HasOpenGrows(a: seq<Case>, b: seq<Case>, ruleId: nat, sid: string)
    requires HasOpen(a, ruleId, sid)
    ensures HasOpen(a + b, ruleId, sid)
  {
    var k :| 0 <= k < |a| && IsOpenFor(a[k], ruleId, sid);
    assert (a + b)[k] == a[k];
  }

  /** Appending an open case for a pair that has none keeps at most one open case per pair. */
  lemma AppendKeepsOneOpen(cases: seq<Case>, c: Case)
    requires AtMostOneOpen(cases) && !HasOpen(cases, c.ruleId, c.student)
    ensures AtMostOneOpen(cases + [c])
  {
    var all := cases + [c];
    forall i, j | 0 <= i < j < |all| && all[i].status == OpenStatus && all[j].status == OpenStatus
      ensures all[i].ruleId != all[j].ruleId || all[i].student != all[j].student
    {
      if j == |cases| {
        assert all[i] == cases[i];
        assert !IsOpenFor(cases[i], c.ruleId, c.student);
      }
    }
  }

  /** The invariants of the case table: Ids increase and stay below the next Id, and one open case per pair. */
  ghost predicate CasesValid(cases: seq<Case>, nextId: nat) {
    && IdsAscending(cases)
    && (forall k :: 0 <= k < |cases| ==> cases[k].id < nextId)
    && AtMostOneOpen(cases)
  }

  /** Inserting an open case with the next Id for a pair without an open case keeps the case invariants. */
  lemma InsertKeepsCasesValid(cases: seq<Case>, nextId: nat, c: Case)
    requires CasesValid(cases, nextId) && c.id == nextId && !HasOpen(cases, c.ruleId, c.student)
    ensures CasesValid(cases + [c], nextId + 1)
  {
    AppendKeepsOneOpen(cases, c);
  }

  /** Every appended case is open, unclosed, stamped `now`, and numbered from `nextId` on. */
  lemma {:induction false} ScanAppendShape(cases: seq<Case>, nextId: nat, ms: seq<Metric>, gpa: Rule, debt: Rule, now: int)
    ensures var added := ScanAppend(cases, nextId, ms, gpa, debt, now);
            && |added| <= 2 * |ms|
            && forall k :: 0 <= k < |added| ==>
                 added[k].id == nextId + k && added[k].status == OpenStatus
                 && added[k].closedAt == None && added[k].createdAt == now
  {
    if ms != [] {
      ScanAppendShape(cases, nextId, ms[..|ms| - 1], gpa, debt, now);
    }
  }

  /** What a GPA_BELOW case records: the student's GPA4, below the rule's threshold and above 0. */
  ghost predicate GpaCaseFor(c: Case, ms: seq<Metric>, gpa: Rule) {
    c.ruleId == gpa.id && c.level == Critical
    && exists m :: m in ms && m.student == c.student && c.value == m.gpa4 && GpaFires(m.gpa4, gpa.threshold)
  }

  /** What a DEBT_OVER case records: the student's debt credits, at or above the rule's threshold. */
  ghost predicate DebtCaseFor(c: Case, ms: seq<Metric>, debt: Rule) {
    c.ruleId == debt.id && c.level == Warning
    && exists m :: m in ms && m.student == c.student && c.value == m.debt && DebtFires(m.debt, debt.threshold)
  }

  /** Soundness: a case is appended only for a scanned student whose metric breaches the rule. */
  lemma {:induction false} ScanAppendSound(cases: seq<Case>, nextId: nat, ms: seq<Metric>, gpa: Rule, debt: Rule, now: int)
    ensures forall c :: c in ScanAppend(cases, nextId, ms, gpa, debt, now) ==>
              GpaCaseFor(c, ms, gpa) || DebtCaseFor(c, ms, debt)
  {
    if ms != [] {
      var init := ms[..|ms| - 1];
      var last := ms[|ms| - 1];
      ScanAppendSound(cases, nextId, init, gpa, debt, now);
      assert last in ms;
      forall c | c in ScanAppend(cases, nextId, init, gpa, debt, now)
        ensures GpaCaseFor(c, ms, gpa) || DebtCaseFor(c, ms, debt)
      {
        if GpaCaseFor(c, init, gpa) {
          var m :| m in init && m.student == c.student && c.value == m.gpa4 && GpaFires(m.gpa4, gpa.threshold);
          assert m in ms;
        } else {
          var m :| m in init && m.student == c.student && c.value == m.debt && DebtFires(m.debt, debt.threshold);
          assert m in ms;
        }
      }
    }
  }

  /** The table after a non-empty scan: the table after all but the last metric, then the last metric's cases. */
  lemma ScanAppendLast(cases: seq<Case>, nextId: nat, ms: seq<Metric>, gpa: Rule, debt: Rule, now: int)
    requires ms != []
    ensures var prev := ScanAppend(cases, nextId, ms[..|ms| - 1], gpa, debt, now);
            cases + ScanAppend(cases, nextId, ms, gpa, debt, now)
              == (cases + prev) + StudentCases(cases + prev, nextId + |prev|, ms[|ms| - 1], gpa, debt, now)
  {
    var prev := ScanAppend(cases, nextId, ms[..|ms| - 1], gpa, debt, now);
    var step := StudentCases(cases + prev, nextId + |prev|, ms[|ms| - 1], gpa, debt, now);
    assert ScanAppend(cases, nextId, ms, gpa, debt, now) == prev + step;
    assert cases + (prev + step) == (cases + prev) + step;
  }

  /** The pair invariant: if the table had at most one open case per pair, so has the table after the scan. */
  lemma {:induction false} ScanKeepsOneOpen(cases: seq<Case>, nextId: nat, ms: seq<Metric>, gpa: Rule, debt: Rule, now: int)
    requires AtMostOneOpen(cases)
    ensures AtMostOneOpen(cases + ScanAppend(cases, nextId, ms, gpa, debt, now))
  {
    if ms != [] {
      var prev := ScanAppend(cases, nextId, ms[..|ms| - 1], gpa, debt, now);
      ScanKeepsOneOpen(cases, nextId, ms[..|ms| - 1], gpa, debt, now);
      StudentKeepsOneOpen(cases + prev, nextId + |prev|, ms[|ms| - 1], gpa, debt, now);
      ScanAppendLast(cases, nextId, ms, gpa, debt, now);
    }
  }

  lemma StudentKeepsOneOpen(cases: seq<Case>, nextId: nat, m: Metric, gpa: Rule, debt: Rule, now: int)
    requires AtMostOneOpen(cases)
    ensures AtMostOneOpen(cases + StudentCases(cases, nextId, m, gpa, debt, now))
  {
    var g := if GpaFires(m.gpa4, gpa.threshold) && !HasOpen(cases, gpa.id, m.student)
             then [Case(nextId, gpa.id, m.student, m.gpa4, Critical, OpenStatus, now, None)] else [];
    if g != [] {
      AppendKeepsOneOpen(cases, g[0]);
    } else {
      assert cases + g == cases;
    }
    var d := if DebtFires(m.debt, debt.threshold) && !HasOpen(cases + g, debt.id, m.student)
             then [Case(nextId + |g|, debt.id, m.student, m.debt, Warning, OpenStatus, now, None)] else [];
    if d != [] {
      AppendKeepsOneOpen(cases + g, d[0]);
    } else {
      assert cases + g + d == cases + g;
    }
    assert cases + StudentCases(cases, nextId, m, gpa, debt, now) == cases + g + d;
  }

  /** Completeness: after the scan, every breach of a scanned student has an open case for its pair. */
  lemma {:induction false} ScanCovers(cases: seq<Case>, nextId: nat, ms: seq<Metric>, gpa: Rule, debt: Rule, now: int)
    ensures var after := cases + ScanAppend(cases, nextId, ms, gpa, debt, now);
            forall m :: m in ms ==>
              (GpaFires(m.gpa4, gpa.threshold) ==> HasOpen(after, gpa.id, m.student))
              && (DebtFires(m.debt, debt.threshold) ==> HasOpen(after, debt.id, m.student))
  {
    if ms != [] {
      var init := ms[..|ms| - 1];
      var m := ms[|ms| - 1];
      var prev := ScanAppend(cases, nextId, init, gpa, debt, now);
      var before := cases + prev;
      var step := StudentCases(before, nextId + |prev|, m, gpa, debt, now);
      var after := cases + ScanAppend(cases, nextId, ms, gpa, debt, now);
      assert after == before + step;
      ScanCovers(cases, nextId, init, gpa, debt, now);
      forall m' | m' in ms
        ensures GpaFires(m'.gpa4, gpa.threshold) ==> HasOpen(after, gpa.id, m'.student)
        ensures DebtFires(m'.debt, debt.threshold) ==> HasOpen(after, debt.id, m'.student)
      {
        if m' in init {
          if GpaFires(m'.gpa4, gpa.threshold) {
            HasOpenGrows(before, step, gpa.id, m'.student);
          }
          if DebtFires(m'.debt, debt.threshold) {
            HasOpenGrows(before, step, debt.id, m'.student);
          }
        } else {
          assert m' == m by {
            var k :| 0 <= k < |ms| && ms[k] == m';
            if k < |ms| - 1 {
              assert ms[k] == init[k];
            }
          }
          StudentCovers(before, nextId + |prev|, m, gpa, debt, now);
        }
      }
    }
  }

  lemma StudentCovers(cases: seq<Case>, nextId: nat, m: Metric, gpa: Rule, debt: Rule, now: int)
    ensures var after := cases + StudentCases(cases, nextId, m, gpa, debt, now);
            && (GpaFires(m.gpa4, gpa.threshold) ==> HasOpen(after, gpa.id, m.student))
            && (DebtFires(m.debt, debt.threshold) ==> HasOpen(after, debt.id, m.student))
  {
    var g := if GpaFires(m.gpa4, gpa.threshold) && !HasOpen(cases, gpa.id, m.student)
             then [Case(nextId, gpa.id, m.student, m.gpa4, Critical, OpenStatus, now, None)] else [];
    var d := if DebtFires(m.debt, debt.threshold) && !HasOpen(cases + g, debt.id, m.student)
             then [Case(nextId + |g|, debt.id, m.student, m.debt, Warning, OpenStatus, now, None)] else [];
    var after := cases + g + d;
    assert after == cases + StudentCases(cases, nextId, m, gpa, debt, now);
    if GpaFires(m.gpa4, gpa.threshold) {
      if HasOpen(cases, gpa.id, m.student) {
        HasOpenGrows(cases, g + d, gpa.id, m.student);
        assert cases + (g + d) == after;
      } else {
        assert after[|cases|] == g[0];
      }
    }
    if DebtFires(m.debt, debt.threshold) {
      if HasOpen(cases + g, debt.id, m.student) {
        HasOpenGrows(cases + g, d, debt.id, m.student);
      } else {
        assert after[|cases + g|] == d[0];
      }
    }
  }

  /** With every breach already covered by an open case, a scan appends nothing. */
  lemma {:induction false} CoveredScanAppendsNothing(cases: seq<Case>, nextId: nat, ms: seq<Metric>, gpa: Rule, debt: Rule, now: int)
    requires forall m :: m in ms ==>
               (GpaFires(m.gpa4, gpa.threshold) ==> HasOpen(cases, gpa.id, m.student))
               && (DebtFires(m.debt, debt.threshold) ==> HasOpen(cases, debt.id, m.student))
    ensures ScanAppend(cases, nextId, ms, gpa, debt, now) == []
  {
    if ms != [] {
      var init := ms[..|ms| - 1];
      assert forall m :: m in init ==> m in ms;
      CoveredScanAppendsNothing(cases, nextId, init, gpa, debt, now);
      assert ms[|ms| - 1] in ms;
      assert cases + [] == cases;
    }
  }

  /** The scan never reads a rule's Active flag: inactive rules still raise cases. */
  lemma {:induction false} ScanIgnoresActive(cases: seq<Case>, nextId: nat, ms: seq<Metric>, gpa: Rule, debt: Rule,
                                             now: int, gpaActive: bool, debtActive: bool)
    ensures ScanAppend(cases, nextId, ms, gpa.(active := gpaActive), debt.(active := debtActive), now)
         == ScanAppend(cases, nextId, ms, gpa, debt, now)
  {
    if ms != [] {
      var init := ms[..|ms| - 1];
      ScanIgnoresActive(cases, nextId, init, gpa, debt, now, gpaActive, debtActive);
      var prev := ScanAppend(cases, nextId, init, gpa, debt, now);
      StudentIgnoresActive(cases + prev, nextId + |prev|, ms[|ms| - 1], gpa, debt, now, gpaActive, debtActive);
    }
  }

  lemma StudentIgnoresActive(cases: seq<Case>, nextId: nat, m: Metric, gpa: Rule, debt: Rule,
                             now: int, gpaActive: bool, debtActive: bool)
    ensures StudentCases(cases, nextId, m, gpa.(active := gpaActive), debt.(active := debtActive), now)
         == StudentCases(cases, nextId, m, gpa, debt, now)
  {
    var gpa' := gpa.(active := gpaActive);
    var debt' := debt.(active := debtActive);
    assert gpa'.id == gpa.id && gpa'.threshold == gpa.threshold;
    assert debt'.id == debt.id && debt'.threshold == debt.threshold;
  }

  /**
   * The GPA guard: a student whose GPA4 is 0 (no weighted credits, or a
   * true 0.0 average) never receives a GPA_BELOW case, whatever the
   * threshold; a GPA_BELOW case always records a value in (0, threshold).
   */
  lemma ZeroGpaNeverFlagged(cases: seq<Case>, nextId: nat, ms: seq<Metric>, gpa: Rule, debt: Rule, now: int, sid: string)
    requires gpa.id != debt.id
    requires forall m :: m in ms && m.student == sid ==> m.gpa4 == 0.0
    ensures forall c :: c in ScanAppend(cases, nextId, ms, gpa, debt, now) && c.ruleId == gpa.id ==>
              c.student != sid && 0.0 < c.value < gpa.threshold && c.level == Critical
  {
    ScanAppendSound(cases, nextId, ms, gpa, debt, now);
  }

  /** Debt credits exactly at the threshold raise a DEBT_OVER case: the comparison is inclusive. */
  lemma DebtBoundaryFires(cases: seq<Case>, nextId: nat, ms: seq<Metric>, gpa: Rule, debt: Rule, now: int, m: Metric)
    requires m in ms && m.debt == debt.threshold
    ensures HasOpen(cases + ScanAppend(cases, nextId, ms, gpa, debt, now), debt.id, m.student)
  {
    ScanCovers(cases, nextId, ms, gpa, debt, now);
  }
}
