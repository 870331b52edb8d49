/**
 Concrete reports and the exact output the normaliser gives for them.
 */
module Scenarios {
  import opened Json
  import opened Normalizer
  import opened Properties
  import Decimal

  /** 1 MiB and 2 MiB print as "1.00" and "2.00" megabytes. */
  lemma WholeMegabytes()
    ensures Decimal.Megabytes(1048576) == "1.00"
    ensures Decimal.Megabytes(2097152) == "2.00"
  {
    assert Decimal.MegabyteHundredths(1048576) == 100;
    assert Decimal.MegabyteHundredths(2097152) == 200;
    assert Decimal.NatToDecimal(1) == "1";
    assert Decimal.NatToDecimal(2) == "2";
  }

  /** An eighth of a megabyte lies halfway between 0.12 and 0.13 and,
      rounded to the even neighbour, prints as "0.12". */
  lemma HalfwayRoundsToEven()
    ensures Decimal.Megabytes(131072) == "0.12"
  {
    assert 13107200 / 1048576 == 12 && 13107200 % 1048576 == 524288;
    assert Decimal.MegabyteHundredths(131072) == 12;
    assert Decimal.NatToDecimal(0) == "0";
  }

  /** A negative size keeps its '-' even when it rounds to zero. */
  lemma NegativeZero()
    ensures Decimal.Megabytes(-1) == "-0.00"
  {
    assert -100 / 1048576 == -1 && -100 % 1048576 == 1048476;
    assert Decimal.MegabyteHundredths(-1) == 0;
    assert Decimal.NatToDecimal(0) == "0";
  }

  /** The detail line for 1 MiB. */
  lemma OneMegabyteLine()
    ensures AppSizeMsg(1048576) == "Detail: APP Size = 1.00M"
  {
    WholeMegabytes();
    assert AppSizeMsg(1048576) == "Detail: APP Size = " + "1.00" + "M";
  }

  /** A failed package-size check reporting 1 MiB yields one summary issue
      whose message ends with "APP Size = 1.00M". */
  lemma PackageSizeReport(show: Value -> string)
    ensures var item := RawViolation("PACKAGE_SIZE_LIMIT", Bool(false), "too big", "http://x",
                                     Dict(map["__APP__" := Int(1048576)]));
      Normalize([item], ["PACKAGE_SIZE_LIMIT"], show)
        == [Issue(Str(".TCA_PROJECT_SUMMARY"), 0, 0, "PACKAGE_SIZE_LIMIT",
                  FullMessage("too big", "http://x", "Detail: APP Size = 1.00M"), [])]
  {
    var item := RawViolation("PACKAGE_SIZE_LIMIT", Bool(false), "too big", "http://x",
                             Dict(map["__APP__" := Int(1048576)]));
    var rules := ["PACKAGE_SIZE_LIMIT"];
    assert item.detail.fields["__APP__"] == Int(1048576);
    assert ReportsAppSize(item.detail);
    PackageSizeYieldsOneSummary(item, rules, show);
    var r := Handle(item, rules, show);
    assert r[0].msg == FullMessage("too big", "http://x", AppSizeMsg(1048576));
    OneMegabyteLine();
    assert r[0].msg == FullMessage("too big", "http://x", "Detail: APP Size = 1.00M");
    assert r[0] == Issue(Str(".TCA_PROJECT_SUMMARY"), 0, 0, "PACKAGE_SIZE_LIMIT", r[0].msg, []);
    assert r == [r[0]];
    assert [item][1..] == [];
    assert Normalize([item], rules, show) == r;
  }

  /** Two files and one component give three issues, files first. */
  lemma ContainsOtherReport(show: Value -> string)
    ensures var item := RawViolation("CONTAINS_OTHER_PKG_JS", Bool(false), "t", "u",
                                     Dict(map["files" := List([Str("a.js"), Str("b.js")]),
                                              "comps" := List([Str("c")])]));
      Paths(Normalize([item], ["CONTAINS_OTHER_PKG_JS"], show))
        == [Str("a.js"), Str("b.js"), Str("c")]
  {
    var item := RawViolation("CONTAINS_OTHER_PKG_JS", Bool(false), "t", "u",
                             Dict(map["files" := List([Str("a.js"), Str("b.js")]),
                                      "comps" := List([Str("c")])]));
    ContainsOtherFansOut(item, ["CONTAINS_OTHER_PKG_JS"], show);
    assert [item][1..] == [];
  }

  /** A contains-unused record whose `detail` is a mapping instead of a list
      still yields exactly one summary issue. */
  lemma MalformedUnusedReport(show: Value -> string)
    ensures var item := RawViolation("CONTAINS_UNUSED_CODES", Bool(false), "t", "u",
                                     Dict(map["x" := Int(1)]));
      var r := Normalize([item], ["CONTAINS_UNUSED_CODES"], show);
      |r| == 1 && r[0].path == Str(".TCA_PROJECT_SUMMARY")
  {
  }
}
