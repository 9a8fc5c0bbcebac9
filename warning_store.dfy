/**
 * The WarningRule and WarningCase tables and the handlers that change them:
 * `_ensure_warning_rule`, `warning_scan`, `warning_close`,
 * `warning_rules_create` and `warning_rules_delete` (backend/app.py).
 */
module WarningStore {
  import opened Wrappers
  import opened Text
  import opened Aggregation
  import opened WarningModel

  /** The handlers' error replies: 400, 409 and 404. */
  datatype Error = InvalidInput | DuplicateCode | NotFound

  function HttpStatus(e: Error): int {
    match e
    case InvalidInput => 400
    case DuplicateCode => 409
    case NotFound => 404
  }

  /** `(b.get("Code") or "").strip().upper()`. */
  function NormalizeCode(code: Option<string>): (r: string)
    ensures Trimmed(r)
    ensures forall i :: 0 <= i < |r| ==> !('a' <= r[i] <= 'z')
  {
    StripIsTrimmed(code.GetOr(""));
    UpperTrimmed(Strip(code.GetOr("")));
    UpperHasNoLower(Strip(code.GetOr("")));
    Upper(Strip(code.GetOr("")))
  }

  /** `(b.get("Name") or "").strip()`. */
  function NormalizeName(name: Option<string>): (r: string)
    ensures Trimmed(r)
  {
    StripIsTrimmed(name.GetOr(""));
    Strip(name.GetOr(""))
  }

  /** `float(b.get("Threshold") or 0)`. */
  function ThresholdArg(threshold: Option<real>): real {
    threshold.GetOr(0.0)
  }

  lemma {:induction false} UpperIdempotent(s: string)
    ensures Upper(Upper(s)) == Upper(s)
  {
    assert forall i :: 0 <= i < |s| ==> UpperChar(UpperChar(s[i])) == UpperChar(s[i]);
  }

  /** Upper-casing keeps a trimmed string trimmed. */
  lemma UpperTrimmed(t: string)
    requires Trimmed(t)
    ensures Trimmed(Upper(t))
  {
    if t != [] {
      UpperCharSpace(t[0]);
      UpperCharSpace(t[|t| - 1]);
    }
  }

  lemma UpperHasNoLower(t: string)
    ensures forall i :: 0 <= i < |Upper(t)| ==> !('a' <= Upper(t)[i] <= 'z')
  {
  }

  /** A normalised code is trimmed, holds no lower-case ASCII letter, and normalises to itself. */
  lemma NormalizeCodeIdempotent(code: Option<string>)
    ensures var c := NormalizeCode(code);
            && Trimmed(c)
            && (forall i :: 0 <= i < |c| ==> !('a' <= c[i] <= 'z'))
            && NormalizeCode(Some(c)) == c
  {
    var t := Strip(code.GetOr(""));
    var c := Upper(t);
    assert Trimmed(t) by { StripIsTrimmed(code.GetOr("")); }
    assert Trimmed(c) by { UpperTrimmed(t); }
    assert forall i :: 0 <= i < |c| ==> !('a' <= c[i] <= 'z') by { UpperHasNoLower(t); }
    assert Strip(c) == c by { StripTrimmed(c); }
    assert Upper(c) == c by { UpperIdempotent(t); }
  }

  class WarningDb {
    var rules: seq<Rule>
    var nextRuleId: nat
    var cases: seq<Case>
    var nextCaseId: nat

    /** Rule Ids increase and Codes are unique; case Ids increase; at most one open case per pair. */
    ghost predicate Valid()
      reads this
    {
      && RulesValid(rules, nextRuleId)
      && CasesValid(cases, nextCaseId)
    }

    constructor ()
      ensures Valid() && rules == [] && cases == []
    {
      rules, nextRuleId := [], 1;
      cases, nextCaseId := [], 1;
    }

    /** `_ensure_warning_rule`: the stored rule of that code, or a new active rule with `threshold`. */
    method EnsureRule(code: string, name: string, threshold: real) returns (r: Rule)
      requires Valid()
      modifies this`rules, this`nextRuleId
      ensures Valid()
      ensures rules == Seeded(old(rules), old(nextRuleId), code, name, threshold)
      ensures FindCode(rules, code) == Some(r)
      ensures nextRuleId == old(nextRuleId) + |rules| - |old(rules)|
      ensures old(FindCode(rules, code)).Some? ==> r == old(FindCode(rules, code)).value && nextRuleId == old(nextRuleId)
      ensures old(FindCode(rules, code)).None? ==>
                r == Rule(old(nextRuleId), code, name, threshold, true) && nextRuleId == old(nextRuleId) + 1
    {
      var found := FindCode(rules, code);
      if found.Some? {
        return found.value;
      }
      r := Rule(nextRuleId, code, name, threshold, true);
      FindCodeAppend(rules, r, code);
      AppendKeepsRulesValid(rules, nextRuleId, r);
      rules := rules + [r];
      nextRuleId := nextRuleId + 1;
    }

    /** The two `_ensure_warning_rule` calls at the head of `warning_scan`, for two distinct codes. */
    method EnsureRules(c1: string, n1: string, t1: real, c2: string, n2: string, t2: real) returns (r1: Rule, r2: Rule)
      requires Valid() && c1 != c2
      modifies this`rules, this`nextRuleId
      ensures Valid()
      ensures rules == SeededTwo(old(rules), old(nextRuleId), c1, n1, t1, c2, n2, t2)
      ensures nextRuleId == old(nextRuleId) + |rules| - |old(rules)|
      ensures FindCode(rules, c1) == Some(r1) && FindCode(rules, c2) == Some(r2)
      ensures old(FindCode(rules, c1)).Some? ==> r1 == old(FindCode(rules, c1)).value
      ensures old(FindCode(rules, c2)).Some? ==> r2 == old(FindCode(rules, c2)).value
      ensures old(FindCode(rules, c1)).None? ==> r1.threshold == t1 && r1.active
      ensures old(FindCode(rules, c2)).None? ==> r2.threshold == t2 && r2.active
    {
      ghost var rules0 := rules;
      ghost var f2 := FindCode(rules, c2);
      r1 := EnsureRule(c1, n1, t1);
      ghost var mid := rules;
      ghost var midNext := nextRuleId;
      SeededFinds(rules0, old(nextRuleId), c1, n1, t1, c2);
      assert FindCode(mid, c2) == f2;
      r2 := EnsureRule(c2, n2, t2);
      assert f2.Some? ==> r2 == f2.value;
      SeededFinds(mid, midNext, c2, n2, t2, c1);
      assert FindCode(rules, c1) == Some(r1);
      SeededTwoUnfold(rules0, old(nextRuleId), c1, n1, t1, c2, n2, t2, mid, midNext);
    }

    /**
     * `warning_scan`: seed the two rules, then for each considered student
     * append an open GPA_BELOW and/or DEBT_OVER case when the metric breaches
     * the STORED threshold and no open case exists for the pair; return the
     * number of cases appended.
     */
    method Scan(cfg: map<string, real>, roster: seq<Student>, grades: seq<Grade>, courses: Courses,
                classFilter: Option<string>, now: int) returns (created: nat)
      requires Valid()
      modifies this
      ensures Valid()
      ensures rules == SeededTwo(old(rules), old(nextRuleId),
                                 GpaRuleCode, GpaRuleName, SeedThreshold(cfg, GpaThresholdKey, DefaultGpaThreshold),
                                 DebtRuleCode, DebtRuleName, SeedThreshold(cfg, DebtThresholdKey, DefaultDebtThreshold))
      ensures FindCode(rules, GpaRuleCode).Some? && FindCode(rules, DebtRuleCode).Some?
      ensures old(FindCode(rules, GpaRuleCode)).Some? ==> FindCode(rules, GpaRuleCode) == old(FindCode(rules, GpaRuleCode))
      ensures old(FindCode(rules, DebtRuleCode)).Some? ==> FindCode(rules, DebtRuleCode) == old(FindCode(rules, DebtRuleCode))
      ensures old(FindCode(rules, GpaRuleCode)).None? ==>
                FindCode(rules, GpaRuleCode).value.threshold == SeedThreshold(cfg, GpaThresholdKey, DefaultGpaThreshold)
                && FindCode(rules, GpaRuleCode).value.active
      ensures old(FindCode(rules, DebtRuleCode)).None? ==>
                FindCode(rules, DebtRuleCode).value.threshold == SeedThreshold(cfg, DebtThresholdKey, DefaultDebtThreshold)
                && FindCode(rules, DebtRuleCode).value.active
      ensures cases == old(cases) + ScanAppend(old(cases), old(nextCaseId), Metrics(roster, grades, courses, classFilter),
                                               FindCode(rules, GpaRuleCode).value, FindCode(rules, DebtRuleCode).value, now)
      ensures created == |cases| - |old(cases)|
      ensures nextRuleId == old(nextRuleId) + |rules| - |old(rules)|
      ensures nextCaseId == old(nextCaseId) + created
      ensures var gpa := FindCode(rules, GpaRuleCode).value;
              var debt := FindCode(rules, DebtRuleCode).value;
              forall m :: m in Metrics(roster, grades, courses, classFilter) ==>
                (GpaFires(m.gpa4, gpa.threshold) ==> HasOpen(cases, gpa.id, m.student))
                && (DebtFires(m.debt, debt.threshold) ==> HasOpen(cases, debt.id, m.student))
    {
      SeedCodesDiffer();
      var gpa, debt := EnsureRules(GpaRuleCode, GpaRuleName, SeedThreshold(cfg, GpaThresholdKey, DefaultGpaThreshold),
                                   DebtRuleCode, DebtRuleName, SeedThreshold(cfg, DebtThresholdKey, DefaultDebtThreshold));
      var ms := Metrics(roster, grades, courses, classFilter);
      ghost var base := cases;
      ghost var baseId := nextCaseId;
      created := ScanMetrics(ms, gpa, debt, now);
      ScanCovers(base, baseId, ms, gpa, debt, now);
    }

    /** The loop of `warning_scan` over the metric rows, in order. */
    method ScanMetrics(ms: seq<Metric>, gpa: Rule, debt: Rule, now: int) returns (created: nat)
      requires Valid()
      modifies this`cases, this`nextCaseId
      ensures Valid()
      ensures cases == old(cases) + ScanAppend(old(cases), old(nextCaseId), ms, gpa, debt, now)
      ensures created == |cases| - |old(cases)|
      ensures nextCaseId == old(nextCaseId) + created
    {
      ghost var base := cases;
      ghost var baseId := nextCaseId;
      created := 0;
      var i := 0;
      assert ms[..0] == [] && cases == base + [];
      while i < |ms|
        invariant 0 <= i <= |ms|
        invariant Valid()
        invariant cases == base + ScanAppend(base, baseId, ms[..i], gpa, debt, now)
        invariant nextCaseId == baseId + |cases| - |base|
        invariant created == |cases| - |base|
      {
        ScanAppendStep(base, baseId, ms, i, gpa, debt, now, cases);
        var n := ScanStudent(ms[i], gpa, debt, now);
        created := created + n;
        i := i + 1;
      }
      assert ms[..|ms|] == ms;
    }

    /** One iteration of the scan loop: the checks and inserts for one student. */
    method ScanStudent(m: Metric, gpa: Rule, debt: Rule, now: int) returns (n: nat)
      requires Valid()
      modifies this`cases, this`nextCaseId
      ensures Valid()
      ensures cases == old(cases) + StudentCases(old(cases), old(nextCaseId), m, gpa, debt, now)
      ensures nextCaseId == old(nextCaseId) + n && n == |cases| - |old(cases)|
    {
      var g := Raise(GpaFires(m.gpa4, gpa.threshold), gpa, m.student, m.gpa4, Critical, now);
      var d := Raise(DebtFires(m.debt, debt.threshold), debt, m.student, m.debt, Warning, now);
      n := g + d;
    }

    /**
     * One guarded insert of the scan: when the rule fires and the pair has no
     * open case, append an open case with the next Id.
     */
    method Raise(fires: bool, rule: Rule, sid: string, value: real, level: Level, now: int) returns (n: nat)
      requires Valid()
      modifies this`cases, this`nextCaseId
      ensures Valid()
      ensures cases == old(cases) + (if fires && !HasOpen(old(cases), rule.id, sid)
                                     then [Case(old(nextCaseId), rule.id, sid, value, level, OpenStatus, now, None)]
                                     else [])
      ensures nextCaseId == old(nextCaseId) + n && n == |cases| - |old(cases)|
    {
      n := 0;
      if fires {
        var found := HasOpen(cases, rule.id, sid);
        if !found {
          var c := Case(nextCaseId, rule.id, sid, value, level, OpenStatus, now, None);
          InsertKeepsCasesValid(cases, nextCaseId, c);
          cases := cases + [c];
          nextCaseId := nextCaseId + 1;
          n := 1;
        }
      }
    }

    /** `warning_close`: 404 for an unknown Id; otherwise that case becomes closed at `now`, open or not. */
    method Close(cid: nat, now: int) returns (res: Result<(), Error>)
      requires Valid()
      modifies this
      ensures Valid()
      ensures res.Failure? <==> forall k :: 0 <= k < |old(cases)| ==> old(cases)[k].id != cid
      ensures res.Failure? ==> res.error == NotFound && cases == old(cases)
      ensures |cases| == |old(cases)|
      ensures forall k :: 0 <= k < |cases| ==>
                cases[k] == if old(cases)[k].id == cid
                            then old(cases)[k].(status := ClosedStatus, closedAt := Some(now))
                            else old(cases)[k]
      ensures rules == old(rules) && nextRuleId == old(nextRuleId) && nextCaseId == old(nextCaseId)
    {
      var found := CaseIndex(cases, cid);
      if found.None? {
        return Failure(NotFound);
      }
      var k := found.value;
      var closed := cases[k].(status := ClosedStatus, closedAt := Some(now));
      cases := cases[k := closed];
      res := Success(());
    }

    /** `warning_rules_create`: 400 without Code or Name, 409 for a known Code, else a new active rule. */
    method CreateRule(code: Option<string>, name: Option<string>, threshold: Option<real>) returns (res: Result<nat, Error>)
      requires Valid()
      modifies this`rules, this`nextRuleId
      ensures Valid()
      ensures |NormalizeCode(code)| == 0 || |NormalizeName(name)| == 0 ==>
                res == Failure(InvalidInput) && rules == old(rules)
      ensures |NormalizeCode(code)| != 0 && |NormalizeName(name)| != 0 && old(FindCode(rules, NormalizeCode(code))).Some? ==>
                res == Failure(DuplicateCode) && rules == old(rules)
      ensures |NormalizeCode(code)| != 0 && |NormalizeName(name)| != 0 && old(FindCode(rules, NormalizeCode(code))).None? ==>
                res == Success(old(nextRuleId))
                && rules == old(rules) + [Rule(old(nextRuleId), NormalizeCode(code), NormalizeName(name), ThresholdArg(threshold), true)]
      ensures nextRuleId == old(nextRuleId) + |rules| - |old(rules)|
    {
      var c := NormalizeCode(code);
      var n := NormalizeName(name);
      res := AddRule(c, n, ThresholdArg(threshold));
    }

    /** The checks and the insert of `warning_rules_create`, on the normalised Code and Name. */
    method AddRule(c: string, n: string, th: real) returns (res: Result<nat, Error>)
      requires Valid()
      modifies this`rules, this`nextRuleId
      ensures Valid()
      ensures |c| == 0 || |n| == 0 ==> res == Failure(InvalidInput) && rules == old(rules)
      ensures |c| != 0 && |n| != 0 && old(FindCode(rules, c)).Some? ==>
                res == Failure(DuplicateCode) && rules == old(rules)
      ensures |c| != 0 && |n| != 0 && old(FindCode(rules, c)).None? ==>
                res == Success(old(nextRuleId)) && rules == old(rules) + [Rule(old(nextRuleId), c, n, th, true)]
      ensures nextRuleId == old(nextRuleId) + |rules| - |old(rules)|
    {
      if |c| == 0 || |n| == 0 {
        return Failure(InvalidInput);
      }
      if FindCode(rules, c).Some? {
        return Failure(DuplicateCode);
      }
      var r := Rule(nextRuleId, c, n, th, true);
      AppendKeepsRulesValid(rules, nextRuleId, r);
      rules := rules + [r];
      res := Success(nextRuleId);
      nextRuleId := nextRuleId + 1;
    }

    /** `warning_rules_delete`: 404 for an unknown Id, else that rule alone is removed; its cases stay. */
    method DeleteRule(rid: nat) returns (res: Result<(), Error>)
      requires Valid()
      modifies this
      ensures Valid()
      ensures old(RuleIndex(rules, rid)).None? ==> res == Failure(NotFound) && rules == old(rules)
      ensures old(RuleIndex(rules, rid)).Some? ==>
                var k := old(RuleIndex(rules, rid)).value;
                res == Success(()) && rules == old(rules)[..k] + old(rules)[k + 1..]
      ensures forall r :: r in old(rules) && r.id != rid ==> r in rules
      ensures forall r :: r in rules ==> r in old(rules) && r.id != rid
      ensures cases == old(cases) && nextCaseId == old(nextCaseId) && nextRuleId == old(nextRuleId)
    {
      var found := RuleIndex(rules, rid);
      if found.None? {
        return Failure(NotFound);
      }
      var k := found.value;
      RemoveKeepsRulesValid(rules, nextRuleId, k);
      rules := rules[..k] + rules[k + 1..];
      res := Success(());
    }
  }

  /**
   * Two scans over unchanged data: the second creates no case, whatever the
   * configuration says by then, because the rules are stored and every breach
   * already has its open case.
   */
  method RescanCreatesNothing(db: WarningDb, cfg1: map<string, real>, cfg2: map<string, real>,
                              roster: seq<Student>, grades: seq<Grade>, courses: Courses,
                              classFilter: Option<string>, now1: int, now2: int)
    returns (first: nat, second: nat)
    requires db.Valid()
    modifies db
    ensures db.Valid()
    ensures second == 0
  {
    first := db.Scan(cfg1, roster, grades, courses, classFilter, now1);
    ghost var gpa := FindCode(db.rules, GpaRuleCode).value;
    ghost var debt := FindCode(db.rules, DebtRuleCode).value;
    ghost var mid := db.cases;
    ghost var midId := db.nextCaseId;
    second := db.Scan(cfg2, roster, grades, courses, classFilter, now2);
    CoveredScanAppendsNothing(mid, midId, Metrics(roster, grades, courses, classFilter), gpa, debt, now2);
  }
}
