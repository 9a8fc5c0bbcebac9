/**
 * `warning_rules_list` (backend/app.py:439-446): the rule table ordered by
 * Code, as SQLite's default BINARY collation orders text (code point by
 * code point, a proper prefix first).
 */
module RuleListing {
  import opened WarningModel

  /** Lexicographic order on codes. */
  predicate CodeLe(a: string, b: string)
    decreases |a|
  {
    a == [] || (b != [] && (a[0] < b[0] || (a[0] == b[0] && CodeLe(a[1..], b[1..]))))
  }

  lemma {:induction false} CodeLeTotal(a: string, b: string)
    ensures CodeLe(a, b) || CodeLe(b, a)
    decreases |a|
  {
    if a != [] && b != [] && a[0] == b[0] {
      CodeLeTotal(a[1..], b[1..]);
    }
  }

  lemma {:induction false} CodeLeTransitive(a: string, b: string, c: string)
    requires CodeLe(a, b) && CodeLe(b, c)
    ensures CodeLe(a, c)
    decreases |a|
  {
    if a != [] && a[0] == b[0] && b[0] == c[0] {
      CodeLeTransitive(a[1..], b[1..], c[1..]);
    }
  }

  lemma {:induction false} CodeLeAntisymmetric(a: string, b: string)
    requires CodeLe(a, b) && CodeLe(b, a)
    ensures a == b
    decreases |a|
  {
    if a != [] {
      CodeLeAntisymmetric(a[1..], b[1..]);
      assert a == [a[0]] + a[1..] && b == [b[0]] + b[1..];
    }
  }

  predicate SortedByCode(rules: seq<Rule>) {
    forall i, j :: 0 <= i < j < |rules| ==> CodeLe(rules[i].code, rules[j].code)
  }

  /** Insertion of one rule before the first rule whose code is not smaller. */
  function Insert(r: Rule, sorted: seq<Rule>): (out: seq<Rule>)
    ensures multiset(out) == multiset(sorted) + multiset{r}
    ensures forall x :: x in out <==> x == r || x in sorted
  {
    if sorted == [] then [r]
    else if CodeLe(r.code, sorted[0].code) then [r] + sorted
    else
      assert sorted == [sorted[0]] + sorted[1..];
      [sorted[0]] + Insert(r, sorted[1..])
  }

  lemma {:induction false} InsertKeepsSorted(r: Rule, sorted: seq<Rule>)
    requires SortedByCode(sorted)
    ensures SortedByCode(Insert(r, sorted))
  {
    if sorted == [] {
    } else if CodeLe(r.code, sorted[0].code) {
      forall j | 0 < j < |sorted| ensures CodeLe(r.code, sorted[j].code) {
        CodeLeTransitive(r.code, sorted[0].code, sorted[j].code);
      }
      assert forall j :: 0 < j < |[r] + sorted| ==> ([r] + sorted)[j] == sorted[j - 1];
    } else {
      CodeLeTotal(r.code, sorted[0].code);
      assert SortedByCode(sorted[1..]);
      InsertKeepsSorted(r, sorted[1..]);
      var rest := Insert(r, sorted[1..]);
      forall x | x in rest ensures CodeLe(sorted[0].code, x.code) {
        if x != r {
          var k :| 0 <= k < |sorted[1..]| && sorted[1..][k] == x;
          assert x == sorted[k + 1];
        }
      }
      var out := [sorted[0]] + rest;
      forall i, j | 0 <= i < j < |out| ensures CodeLe(out[i].code, out[j].code) {
        if i == 0 {
          assert out[j] == rest[j - 1] && rest[j - 1] in rest;
        } else {
          assert out[i] == rest[i - 1] && out[j] == rest[j - 1];
        }
      }
    }
  }

  /** The rules of the table in Code order: a sorted permutation of the table. */
  function SortByCode(rules: seq<Rule>): (out: seq<Rule>)
    ensures SortedByCode(out) && multiset(out) == multiset(rules)
  {
    if rules == [] then []
    else
      assert rules == [rules[0]] + rules[1..];
      var rest := SortByCode(rules[1..]);
      InsertKeepsSorted(rules[0], rest);
      Insert(rules[0], rest)
  }
}
