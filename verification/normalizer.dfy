/**
 The report normaliser `data_handle`: turns the analyser's rule-violation
 records into uniform issue records for the scanning pipeline.

 `Handle` is what the loop body does to one record, `Normalize` the whole
 function as the in-order concatenation of `Handle` over the input, and
 `DataHandle` the loop itself, appending issue by issue as the source does.
 */
module Normalizer {
  import opened Json
  import opened Rules
  import Decimal

  /** One rule evaluation from the analyser's report. A missing `detail`
      reads as `Null`, as `item.get('detail', None)` does. */
  datatype RawViolation = RawViolation(
    name: string,
    success: Value,
    text: string,
    docURL: string,
    detail: Value)

  /** One normalised issue. `path` is copied verbatim from the report when
      an issue is fanned out, so it is whatever JSON value the report held. */
  datatype Issue = Issue(
    path: Value,
    line: int,
    column: int,
    rule: string,
    msg: string,
    refs: seq<string>)

  /** The path of an issue about the project as a whole. */
  const SummaryPath: string := ".TCA_PROJECT_SUMMARY"

  /** A record survives both filters: its rule is enabled and it failed. */
  predicate Reported(item: RawViolation, rules: seq<string>) {
    item.name in rules && !Truthy(item.success)
  }

  /** `detail_msg` before the package-size override; `show` is Python's
      `str()` of a JSON value. */
  function DetailMsg(detail: Value, show: Value -> string): (m: string)
    ensures m == "" <==> !Truthy(detail)
  {
    if Truthy(detail) then "Detail: " + show(detail) else ""
  }

  /** The package-size override applies: `detail` is a mapping whose
      `__APP__` value is truthy. */
  predicate ReportsAppSize(detail: Value) {
    detail.Dict? && Truthy(Get(detail.fields, "__APP__", Null))
  }

  /** `int(v)` succeeds on the values the model keeps: ints and bools. */
  predicate ConvertsToInt(v: Value) {
    v.Int? || v.Bool?
  }

  /** `int(v)`: an int is itself, `True` is 1 and `False` is 0, so the
      number is nonzero exactly when the value is truthy. */
  function ToInt(v: Value): (n: int)
    requires ConvertsToInt(v)
    ensures v.Int? ==> n == v.i
    ensures v.Bool? ==> 0 <= n <= 1
    ensures n != 0 <==> Truthy(v)
  {
    if v.Int? then v.i else if v.b then 1 else 0
  }

  /** The detail line stating the application size in megabytes. */
  function AppSizeMsg(bytes: int): string {
    "Detail: APP Size = " + Decimal.Megabytes(bytes) + "M"
  }

  /** Message with a detail line (which may be empty): the short message,
      a line break, then the detail line. */
  function FullMessage(text: string, url: string, detailMsg: string): (m: string)
    ensures m == ShortMessage(text, url) + "\n" + detailMsg
  {
    "Text: " + text + "\nDocURL: " + url + "\n" + detailMsg
  }

  /** Message without a detail line, used by every fanned-out issue. */
  function ShortMessage(text: string, url: string): (m: string)
    ensures |m| == |text| + |url| + 15
    ensures m[..6] == "Text: " && m[6..6 + |text|] == text
    ensures m[6 + |text|..|m| - |url|] == "\nDocURL: " && m[|m| - |url|..] == url
  {
    "Text: " + text + "\nDocURL: " + url
  }

  /** `detail.get(key, [])` for the `files` and `comps` lists. */
  function Listed(fields: map<string, Value>, key: string): Value {
    Get(fields, key, List([]))
  }

  /** A shallow copy of `template` for each path, in order. */
  function FanOut(template: Issue, paths: seq<Value>): (r: seq<Issue>)
    ensures |r| == |paths|
    ensures forall k :: 0 <= k < |r| ==>
      r[k].path == paths[k] && r[k].(path := template.path) == template
  {
    seq(|paths|, k requires 0 <= k < |paths| => template.(path := paths[k]))
  }

  /** The record does not make the source raise: a truthy `__APP__` of a
      package-size rule converts with `int()`, and the `files` and `comps`
      of a contains-other mapping can be iterated. Records the filters drop
      are never inspected. */
  predicate Admissible(item: RawViolation, rules: seq<string>): (ok: bool)
    ensures !Reported(item, rules) ==> ok
    ensures CategoryOf(item.name) == Generic || CategoryOf(item.name) == ContainsUnused ==> ok
    ensures CategoryOf(item.name) == PackageSize && !ReportsAppSize(item.detail) ==> ok
    ensures CategoryOf(item.name) == ContainsOther && !item.detail.Dict? ==> ok
  {
    Reported(item, rules) ==>
      && (item.name in PackageSizeRules && ReportsAppSize(item.detail) ==>
            ConvertsToInt(item.detail.fields["__APP__"]))
      && (item.name in ContainsOtherRules && item.detail.Dict? ==>
            Iterable(Listed(item.detail.fields, "files")) &&
            Iterable(Listed(item.detail.fields, "comps")))
  }

  predicate AllAdmissible(items: seq<RawViolation>, rules: seq<string>) {
    forall i :: 0 <= i < |items| ==> Admissible(items[i], rules)
  }

  /** The issues one record yields, following the loop body branch by
      branch. */
  function Handle(item: RawViolation, rules: seq<string>, show: Value -> string): (r: seq<Issue>)
    requires Admissible(item, rules)
    ensures forall k :: 0 <= k < |r| ==>
      r[k].line == 0 && r[k].column == 0 && r[k].refs == [] && r[k].rule == item.name
    ensures |r| > 0 ==> Reported(item, rules)
  {
    if item.name !in rules then []
    else if Truthy(item.success) then []
    else
      var detailMsg := DetailMsg(item.detail, show);
      var issue := Issue(Str(SummaryPath), 0, 0, item.name, "", []);
      if item.name in PackageSizeRules then
        var line :=
          if ReportsAppSize(item.detail)
          then AppSizeMsg(ToInt(item.detail.fields["__APP__"]))
          else detailMsg;
        [issue.(msg := FullMessage(item.text, item.docURL, line))]
      else if item.name in ContainsOtherRules && item.detail.Dict? then
        var template := issue.(msg := ShortMessage(item.text, item.docURL));
        FanOut(template, Elements(Listed(item.detail.fields, "files")))
          + FanOut(template, Elements(Listed(item.detail.fields, "comps")))
      else if item.name in ContainsUnusedRules && item.detail.List? then
        FanOut(issue.(msg := ShortMessage(item.text, item.docURL)), item.detail.items)
      else
        [issue.(msg := FullMessage(item.text, item.docURL, detailMsg))]
  }

  /** `data_handle(outputs_data, rules)`: the issues of every record, record
      by record in input order. Every issue sits at line 0, column 0, has no
      refs, and names an enabled rule. */
  function Normalize(items: seq<RawViolation>, rules: seq<string>, show: Value -> string): (r: seq<Issue>)
    requires AllAdmissible(items, rules)
    ensures forall k :: 0 <= k < |r| ==>
      r[k].line == 0 && r[k].column == 0 && r[k].refs == [] && r[k].rule in rules
    decreases |items|
  {
    if |items| == 0 then []
    else Handle(items[0], rules, show) + Normalize(items[1..], rules, show)
  }

  /** Every slice of an admissible report is admissible. */
  lemma AdmissibleSlice(items: seq<RawViolation>, rules: seq<string>, lo: nat, hi: nat)
    requires AllAdmissible(items, rules)
    requires lo <= hi <= |items|
    ensures AllAdmissible(items[lo..hi], rules)
  {
    assert forall i :: 0 <= i < hi - lo ==> items[lo..hi][i] == items[lo + i];
  }

  /** Normalising two reports back to back gives the two outputs back to
      back: the output is the in-order concatenation of the records'
      issues. */
  lemma {:induction false} NormalizeAppend(a: seq<RawViolation>, b: seq<RawViolation>, rules: seq<string>, show: Value -> string)
    requires AllAdmissible(a, rules) && AllAdmissible(b, rules)
    ensures AllAdmissible(a + b, rules)
    ensures Normalize(a + b, rules, show) == Normalize(a, rules, show) + Normalize(b, rules, show)
    decreases |a|
  {
    assert AllAdmissible(a + b, rules) by {
      forall i | 0 <= i < |a + b|
        ensures Admissible((a + b)[i], rules)
      {
        if i < |a| {
          assert (a + b)[i] == a[i];
        } else {
          assert (a + b)[i] == b[i - |a|];
        }
      }
    }
    if |a| == 0 {
      assert a + b == b;
    } else {
      var ab := a + b;
      assert ab[0] == a[0];
      assert ab[1..] == a[1..] + b;
      NormalizeAppend(a[1..], b, rules, show);
      calc {
        Normalize(ab, rules, show);
        Handle(a[0], rules, show) + Normalize(a[1..] + b, rules, show);
        Handle(a[0], rules, show) + (Normalize(a[1..], rules, show) + Normalize(b, rules, show));
        Normalize(a, rules, show) + Normalize(b, rules, show);
      }
    }
  }

  /** Output of `Normalize` on a prefix extended by one record. */
  lemma NormalizeSnoc(items: seq<RawViolation>, rules: seq<string>, show: Value -> string, i: nat)
    requires AllAdmissible(items, rules)
    requires i < |items|
    ensures AllAdmissible(items[..i], rules) && AllAdmissible(items[..i + 1], rules)
    ensures Normalize(items[..i + 1], rules, show)
      == Normalize(items[..i], rules, show) + Handle(items[i], rules, show)
  {
    AdmissibleSlice(items, rules, 0, i);
    AdmissibleSlice(items, rules, i, i + 1);
    var last := items[i..i + 1];
    assert items[..i + 1] == items[..i] + last;
    NormalizeAppend(items[..i], last, rules, show);
    assert last[0] == items[i] && last[1..] == [];
    assert Normalize(last, rules, show) == Handle(items[i], rules, show);
  }

  /** The source's loop over the report, appending issue by issue. */
  method DataHandle(items: seq<RawViolation>, rules: seq<string>, show: Value -> string)
    returns (result: seq<Issue>)
    requires AllAdmissible(items, rules)
    ensures result == Normalize(items, rules, show)
  {
    result := [];
    for i := 0 to |items|
      invariant result == Normalize(items[..i], rules, show)
    {
      NormalizeSnoc(items, rules, show, i);
      result := AppendIssues(result, items[i], rules, show);
    }
    assert items[..|items|] == items;
  }

  /** One pass of the loop body: the record's issues appended to `result`. */
  method AppendIssues(result: seq<Issue>, item: RawViolation, rules: seq<string>, show: Value -> string)
    returns (out: seq<Issue>)
    requires Admissible(item, rules)
    ensures out == result + Handle(item, rules, show)
  {
    out := result;
    if item.name !in rules {
      return;
    }
    if Truthy(item.success) {
      return;
    }
    out := AppendReported(result, item, rules, show);
  }

  /** The loop body after both filters, branch by branch. */
  method AppendReported(result: seq<Issue>, item: RawViolation, rules: seq<string>, show: Value -> string)
    returns (out: seq<Issue>)
    requires Reported(item, rules) && Admissible(item, rules)
    ensures out == result + Handle(item, rules, show)
  {
    out := result;
    var detailMsg := DetailMsg(item.detail, show);
    var issue := Issue(Str(SummaryPath), 0, 0, item.name, "", []);
    if item.name in PackageSizeRules {
      if item.detail.Dict? {
        var appSize := Get(item.detail.fields, "__APP__", Null);
        if Truthy(appSize) {
          detailMsg := AppSizeMsg(ToInt(appSize));
        }
      }
      issue := issue.(msg := FullMessage(item.text, item.docURL, detailMsg));
      out := out + [issue];
      return;
    }
    if item.name in ContainsOtherRules {
      if item.detail.Dict? {
        issue := issue.(msg := ShortMessage(item.text, item.docURL));
        out := AppendCopies(out, issue, Elements(Listed(item.detail.fields, "files")));
        out := AppendCopies(out, issue, Elements(Listed(item.detail.fields, "comps")));
        return;
      }
    }
    if item.name in ContainsUnusedRules {
      if item.detail.List? {
        issue := issue.(msg := ShortMessage(item.text, item.docURL));
        out := AppendCopies(out, issue, item.detail.items);
        return;
      }
    }
    issue := issue.(msg := FullMessage(item.text, item.docURL, detailMsg));
    out := out + [issue];
  }

  /** The fan-out loop: one shallow copy of `issue` per path, carrying that
      path, appended in path order. */
  method AppendCopies(result: seq<Issue>, issue: Issue, paths: seq<Value>)
    returns (out: seq<Issue>)
    ensures out == result + FanOut(issue, paths)
  {
    out := result;
    for j := 0 to |paths|
      invariant out == result + FanOut(issue, paths[..j])
    {
      out := out + [issue.(path := paths[j])];
    }
    assert paths[..|paths|] == paths;
  }
}
