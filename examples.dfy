/** Worked cases of the calculator's behaviour, checked against the model. */
module Examples {
  import opened Options
  import opened Text
  import opened Detection
  import opened Calculation

  const Electronics := Category("Electronics", 18.0, ["laptop", "phone"], true)
  const Luxury := Category("Luxury", 28.0, ["yacht"], false)

  lemma LaptopLowered()
    ensures LowerStr("I bought a laptop") == "i bought a laptop"
  {
  }

  lemma LaptopKeywordMatches()
    ensures Matches("laptop", "i bought a laptop")
  {
    assert LowerStr("laptop") == "laptop";
    assert OccursAt("i bought a laptop", "laptop", 11);
    ContainsIffOccurs("i bought a laptop", "laptop");
  }

  /** No entry spelling an "n" matches "i bought a laptop", which has none. */
  lemma EntryWithNMissesLaptop(entry: string)
    requires 'n' in entry
    ensures !Matches(entry, "i bought a laptop")
  {
    var j :| 0 <= j < |entry| && entry[j] == 'n';
    assert LowerStr(entry)[j] == 'n';
    AbsentCharacterPreventsMatch("i bought a laptop", LowerStr(entry), 'n');
  }

  /** "I bought a laptop" scores 1 for Electronics, through its keyword "laptop" alone. */
  lemma LaptopScoresOne()
    ensures Score(Electronics, "I bought a laptop") == 1
  {
    LaptopLowered();
    LaptopKeywordMatches();
    assert "phone"[3] == 'n';
    EntryWithNMissesLaptop("phone");
    assert "Electronics"[7] == 'n';
    EntryWithNMissesLaptop("Electronics");
    ScoreSplit(Electronics, "I bought a laptop");
  }

  /** With Electronics the only stored category, "I bought a laptop" detects it. */
  lemma LaptopDetected()
    ensures Detect("I bought a laptop", [Electronics]) == Some(Electronics)
  {
    LaptopScoresOne();
    FirstBestIsDetected([Electronics], "I bought a laptop", 0);
  }

  lemma YachtScoresOne()
    ensures Score(Luxury, "yacht") == 1
  {
    assert LowerStr("yacht") == "yacht";
    assert StartsWith("yacht", "yacht");
    assert LowerStr("Luxury") == "luxury";
    AbsentCharacterPreventsMatch("yacht", "luxury", 'l');
    ScoreSplit(Luxury, "yacht");
  }

  /** An inactive best match is reported by name but its rate is not applied: 18.0 from "default". */
  lemma InactiveCategoryFallsBack(round2: real -> real)
    ensures var r := Calculate(Request(100.0, Some("yacht"), None, Some("exclusive")), [Luxury], round2);
            r.Ok? && r.value.appliedRate == DefaultRate && r.value.source == "default" &&
            r.value.detectedCategory == Some("Luxury")
  {
    YachtScoresOne();
    FirstBestIsDetected([Luxury], "yacht", 0);
    assert LowerStr("exclusive") == "exclusive";
  }

  /** Without rounding, 118 inclusive of 18% GST splits into 100 net and 18 GST. */
  lemma InclusiveSplitOf118()
    ensures Compute(118.0, Inclusive, 18.0, Exact) == Amounts(100.0, 18.0, 118.0)
  {
  }

  /** Mode "foo" is rejected, whatever else the request holds. */
  lemma UnknownModeRejected(req: Request, cats: seq<Category>, round2: real -> real)
    requires ValidRequest(req) && ValidStore(cats) && req.mode == Some("foo")
    ensures Calculate(req, cats, round2) == Err(InvalidMode)
  {
    assert LowerStr("foo") == "foo";
  }

  /** Mode matching ignores case: "Inclusive" selects inclusive mode. */
  lemma MixedCaseModeAccepted()
    ensures ParseMode("Inclusive") == Ok(Inclusive)
  {
    assert LowerStr("Inclusive") == "inclusive";
  }
}
