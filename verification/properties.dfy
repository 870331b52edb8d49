/**
 What the normaliser promises: which records are dropped, how many issues
 each kept record yields and with which paths and messages, and how the
 output of a whole report is assembled from the records' issues.
 */
module Properties {
  import opened Json
  import opened Rules
  import opened Normalizer

  /** The paths of a list of issues, in order. */
  function Paths(issues: seq<Issue>): (r: seq<Value>)
    ensures |r| == |issues|
  {
    seq(|issues|, k requires 0 <= k < |issues| => issues[k].path)
  }

  // ----- one record -----

  /** A record of a rule that is not enabled yields nothing, whatever its
      `success` and `detail`. */
  lemma DisabledRuleYieldsNothing(item: RawViolation, rules: seq<string>, show: Value -> string)
    requires item.name !in rules
    ensures Handle(item, rules, show) == []
  {
  }

  /** A record whose `success` is truthy yields nothing. */
  lemma SucceededYieldsNothing(item: RawViolation, rules: seq<string>, show: Value -> string)
    requires Truthy(item.success)
    ensures Handle(item, rules, show) == []
  {
  }

  /** A package-size record yields exactly one summary issue. Its detail line
      is the application size when `detail` is a mapping with a truthy
      `__APP__`, and the plain `detail_msg` otherwise. */
  lemma PackageSizeYieldsOneSummary(item: RawViolation, rules: seq<string>, show: Value -> string)
    requires Reported(item, rules) && Admissible(item, rules)
    requires CategoryOf(item.name) == PackageSize
    ensures var r := Handle(item, rules, show);
      && |r| == 1
      && r[0] == Issue(Str(SummaryPath), 0, 0, item.name, r[0].msg, [])
      && (ReportsAppSize(item.detail) ==>
            r[0].msg == FullMessage(item.text, item.docURL,
                                    AppSizeMsg(ToInt(item.detail.fields["__APP__"]))))
      && (!ReportsAppSize(item.detail) ==>
            r[0].msg == FullMessage(item.text, item.docURL, DetailMsg(item.detail, show)))
  {
  }

  /** A contains-other record with a mapping `detail` yields one issue per
      `files` entry and then one per `comps` entry, in order, all with the
      message that has no detail line. */
  lemma ContainsOtherFansOut(item: RawViolation, rules: seq<string>, show: Value -> string)
    requires Reported(item, rules) && Admissible(item, rules)
    requires CategoryOf(item.name) == ContainsOther && item.detail.Dict?
    ensures var r := Handle(item, rules, show);
      var files := Elements(Listed(item.detail.fields, "files"));
      var comps := Elements(Listed(item.detail.fields, "comps"));
      && |r| == |files| + |comps|
      && Paths(r) == files + comps
      && forall k :: 0 <= k < |r| ==> r[k].msg == ShortMessage(item.text, item.docURL)
  {
    var r := Handle(item, rules, show);
    var files := Elements(Listed(item.detail.fields, "files"));
    var comps := Elements(Listed(item.detail.fields, "comps"));
    assert forall k :: 0 <= k < |r| ==> Paths(r)[k] == (files + comps)[k];
  }

  /** A contains-other mapping whose `files` and `comps` are missing or
      empty yields no issue at all. */
  lemma ContainsOtherEmptyYieldsNothing(item: RawViolation, rules: seq<string>, show: Value -> string)
    requires Admissible(item, rules)
    requires CategoryOf(item.name) == ContainsOther && item.detail.Dict?
    requires !Truthy(Listed(item.detail.fields, "files"))
    requires !Truthy(Listed(item.detail.fields, "comps"))
    ensures Handle(item, rules, show) == []
  {
  }

  /** A contains-unused record with a list `detail` yields one issue per
      entry, in list order, all with the message that has no detail line. */
  lemma ContainsUnusedFansOut(item: RawViolation, rules: seq<string>, show: Value -> string)
    requires Reported(item, rules)
    requires CategoryOf(item.name) == ContainsUnused && item.detail.List?
    ensures var r := Handle(item, rules, show);
      && |r| == |item.detail.items|
      && Paths(r) == item.detail.items
      && forall k :: 0 <= k < |r| ==> r[k].msg == ShortMessage(item.text, item.docURL)
  {
    var r := Handle(item, rules, show);
    assert forall k :: 0 <= k < |r| ==> Paths(r)[k] == item.detail.items[k];
  }

  /** The fallback: a rule in no group, or a contains-other or
      contains-unused record whose `detail` has the wrong shape, yields one
      summary issue carrying `detail_msg`, which is empty exactly when
      `detail` is missing or falsy. */
  lemma FallbackYieldsOneSummary(item: RawViolation, rules: seq<string>, show: Value -> string)
    requires Reported(item, rules)
    requires || CategoryOf(item.name) == Generic
             || (CategoryOf(item.name) == ContainsOther && !item.detail.Dict?)
             || (CategoryOf(item.name) == ContainsUnused && !item.detail.List?)
    ensures Handle(item, rules, show)
      == [Issue(Str(SummaryPath), 0, 0, item.name,
                FullMessage(item.text, item.docURL, DetailMsg(item.detail, show)), [])]
    ensures DetailMsg(item.detail, show) == "" <==> !Truthy(item.detail)
  {
  }

  /** The number of issues a record yields, read off its rule group and the
      shape of its `detail`. */
  function ExpectedCount(item: RawViolation, rules: seq<string>): nat
    requires Admissible(item, rules)
  {
    if !Reported(item, rules) then 0
    else match CategoryOf(item.name)
      case PackageSize => 1
      case ContainsOther =>
        if item.detail.Dict?
        then |Elements(Listed(item.detail.fields, "files"))|
               + |Elements(Listed(item.detail.fields, "comps"))|
        else 1
      case ContainsUnused =>
        if item.detail.List? then |item.detail.items| else 1
      case Generic => 1
  }

  /** The loop body yields as many issues as the group table predicts. */
  lemma HandleCount(item: RawViolation, rules: seq<string>, show: Value -> string)
    requires Admissible(item, rules)
    ensures |Handle(item, rules, show)| == ExpectedCount(item, rules)
  {
  }

  // ----- a whole report -----

  /** The issues of record `i` come after those of every earlier record and
      before those of every later one. */
  lemma {:induction false} NormalizeInOrder(items: seq<RawViolation>, rules: seq<string>, show: Value -> string, i: nat)
    requires AllAdmissible(items, rules)
    requires i < |items|
    ensures Normalize(items, rules, show)
      == Normalize(items[..i], rules, show) + Handle(items[i], rules, show)
         + Normalize(items[i + 1..], rules, show)
  {
    var before := items[..i];
    var here := items[i..i + 1];
    var after := items[i + 1..];
    AdmissibleSlice(items, rules, 0, i);
    AdmissibleSlice(items, rules, i, i + 1);
    AdmissibleSlice(items, rules, i + 1, |items|);
    assert items == before + (here + after);
    NormalizeAppend(here, after, rules, show);
    NormalizeAppend(before, here + after, rules, show);
    assert here[0] == items[i] && here[1..] == [];
    assert Normalize(here, rules, show) == Handle(items[i], rules, show);
  }

  /** The number of issues of a report is the sum of the records' predicted
      counts. */
  function TotalExpected(items: seq<RawViolation>, rules: seq<string>): nat
    requires AllAdmissible(items, rules)
  {
    if |items| == 0 then 0
    else ExpectedCount(items[0], rules) + TotalExpected(items[1..], rules)
  }

  lemma {:induction false} NormalizeCount(items: seq<RawViolation>, rules: seq<string>, show: Value -> string)
    requires AllAdmissible(items, rules)
    ensures |Normalize(items, rules, show)| == TotalExpected(items, rules)
    decreases |items|
  {
    if |items| > 0 {
      HandleCount(items[0], rules, show);
      NormalizeCount(items[1..], rules, show);
    }
  }

  /** With no enabled rule the output is empty. */
  lemma {:induction false} NoRulesNoIssues(items: seq<RawViolation>, show: Value -> string)
    ensures AllAdmissible(items, [])
    ensures Normalize(items, [], show) == []
    decreases |items|
  {
    if |items| > 0 {
      NoRulesNoIssues(items[1..], show);
    }
  }

  /** Some record of the report passed both filters and carries `rule`. */
  predicate NamedByReported(items: seq<RawViolation>, rules: seq<string>, rule: string) {
    exists i :: 0 <= i < |items| && Reported(items[i], rules) && items[i].name == rule
  }

  /** Issue `k` of a report names the rule of a record of that report that
      passed both filters. */
  lemma {:induction false} IssueOrigin(items: seq<RawViolation>, rules: seq<string>, show: Value -> string, k: nat)
    requires AllAdmissible(items, rules)
    requires k < |Normalize(items, rules, show)|
    ensures NamedByReported(items, rules, Normalize(items, rules, show)[k].rule)
    decreases |items|
  {
    var head := Handle(items[0], rules, show);
    var tail := Normalize(items[1..], rules, show);
    var r := Normalize(items, rules, show);
    assert r == head + tail;
    if k < |head| {
      assert Reported(items[0], rules) && items[0].name == r[k].rule;
    } else {
      IssueOrigin(items[1..], rules, show, k - |head|);
      var j :| 0 <= j < |items[1..]| && Reported(items[1..][j], rules)
               && items[1..][j].name == tail[k - |head|].rule;
      assert items[j + 1] == items[1..][j];
      assert r[k] == tail[k - |head|];
    }
  }

  /** Every issue of a report names the rule of a record of that report
      that passed both filters. */
  lemma {:induction false} IssuesComeFromReportedRecords(items: seq<RawViolation>, rules: seq<string>, show: Value -> string)
    requires AllAdmissible(items, rules)
    ensures var r := Normalize(items, rules, show);
      forall k :: 0 <= k < |r| ==> NamedByReported(items, rules, r[k].rule)
  {
    var r := Normalize(items, rules, show);
    forall k | 0 <= k < |r|
      ensures NamedByReported(items, rules, r[k].rule)
    {
      IssueOrigin(items, rules, show, k);
    }
  }

  /** The records that pass both filters, in input order. */
  function Kept(items: seq<RawViolation>, rules: seq<string>): (r: seq<RawViolation>)
    ensures forall i :: 0 <= i < |r| ==> Reported(r[i], rules)
    ensures |r| <= |items|
  {
    if |items| == 0 then []
    else if Reported(items[0], rules) then [items[0]] + Kept(items[1..], rules)
    else Kept(items[1..], rules)
  }

  /** Removing the records that a filter drops changes nothing: disabled
      rules and successful checks contribute no issue anywhere. */
  lemma {:induction false} OnlyKeptRecordsMatter(items: seq<RawViolation>, rules: seq<string>, show: Value -> string)
    requires AllAdmissible(items, rules)
    ensures AllAdmissible(Kept(items, rules), rules)
    ensures Normalize(Kept(items, rules), rules, show) == Normalize(items, rules, show)
    decreases |items|
  {
    if |items| > 0 {
      OnlyKeptRecordsMatter(items[1..], rules, show);
      var rest := Kept(items[1..], rules);
      if Reported(items[0], rules) {
        assert ([items[0]] + rest)[1..] == rest;
      }
    }
  }

  /** Only which names the rule list holds matters, not their order or
      repetitions. */
  lemma {:induction false} RulesActAsSet(items: seq<RawViolation>, rules: seq<string>, rules': seq<string>, show: Value -> string)
    requires AllAdmissible(items, rules)
    requires forall x :: x in rules <==> x in rules'
    ensures AllAdmissible(items, rules')
    ensures Normalize(items, rules, show) == Normalize(items, rules', show)
    decreases |items|
  {
    assert forall i :: 0 <= i < |items| ==> Reported(items[i], rules) == Reported(items[i], rules');
    if |items| > 0 {
      RulesActAsSet(items[1..], rules, rules', show);
    }
  }
}
