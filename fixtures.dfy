/**
 * The fixtures of the repository's tests, and the two edge cases of an empty
 * journey and of a hop that does not exist, stated about the model.
 */
module Fixtures {
  import opened Wrappers
  import opened Text
  import opened MinOnes
  import Parser
  import opened Itinerary

  const RawInput1: seq<string> :=
    ["6", "4", "0 by-sea, 2 by-sea, 3 by-sea", "0 by-sea, 5 airborne", "0 airborne, 5 by-sea", "2 airborne"]
  const Requirements1: seq<Requirement> :=
    [map[0 := BySea, 2 := BySea, 3 := BySea], map[0 := BySea, 5 := Airborne],
     map[0 := Airborne, 5 := BySea], map[2 := Airborne]]
  const Output1: string := "0 by-sea, 1 by-sea, 2 airborne, 3 by-sea, 4 by-sea, 5 by-sea"
  /** The itinerary of the first fixture: only hop 2 airborne. */
  const Optimum1: Assignment := [false, false, true, false, false, false]

  const RawInput2: seq<string> := ["2", "3", "0 by-sea", "0 airborne", "1 by-sea"]
  const Requirements2: seq<Requirement> := [map[0 := BySea], map[0 := Airborne], map[1 := BySea]]

  /** The entry text of a hop below 10. */
  lemma SmallEntry(h: nat, airborne: bool)
    requires h < 10
    ensures NatToString(h) + " " + ModeName(airborne) == [DigitChar(h), ' '] + ModeName(airborne)
  {
  }

  lemma EntriesOptimum1()
    ensures HopEntries(Optimum1) == ["0 by-sea", "1 by-sea", "2 airborne", "3 by-sea", "4 by-sea", "5 by-sea"]
  {
    var e := HopEntries(Optimum1);
    forall h | 0 <= h < 6 ensures e[h] == [DigitChar(h), ' '] + ModeName(Optimum1[h]) {
      SmallEntry(h, Optimum1[h]);
    }
    assert e[0] == "0 by-sea" && e[1] == "1 by-sea" && e[2] == "2 airborne";
    assert e[3] == "3 by-sea" && e[4] == "4 by-sea" && e[5] == "5 by-sea";
  }

  lemma JoinFront1()
    ensures JoinItems(["0 by-sea", "1 by-sea", "2 airborne"]) == "0 by-sea, 1 by-sea, 2 airborne"
  {
    JoinAppend(["0 by-sea"], ["1 by-sea", "2 airborne"]);
    JoinAppend(["1 by-sea"], ["2 airborne"]);
    assert ["0 by-sea"] + ["1 by-sea", "2 airborne"] == ["0 by-sea", "1 by-sea", "2 airborne"];
  }

  lemma JoinBack1()
    ensures JoinItems(["3 by-sea", "4 by-sea", "5 by-sea"]) == "3 by-sea, 4 by-sea, 5 by-sea"
  {
    JoinAppend(["3 by-sea"], ["4 by-sea", "5 by-sea"]);
    JoinAppend(["4 by-sea"], ["5 by-sea"]);
    assert ["3 by-sea"] + ["4 by-sea", "5 by-sea"] == ["3 by-sea", "4 by-sea", "5 by-sea"];
  }

  lemma SplitOutput1()
    ensures Output1 == "0 by-sea, 1 by-sea, 2 airborne" + ItemSeparator + "3 by-sea, 4 by-sea, 5 by-sea"
  {
  }

  lemma RenderOptimum1()
    ensures Render(Optimum1) == Output1
  {
    var front := ["0 by-sea", "1 by-sea", "2 airborne"];
    var back := ["3 by-sea", "4 by-sea", "5 by-sea"];
    calc {
      Render(Optimum1);
      { EntriesOptimum1(); assert HopEntries(Optimum1) == front + back; }
      JoinItems(front + back);
      { JoinAppend(front, back); }
      JoinItems(front) + ItemSeparator + JoinItems(back);
      { JoinFront1(); JoinBack1(); }
      "0 by-sea, 1 by-sea, 2 airborne" + ItemSeparator + "3 by-sea, 4 by-sea, 5 by-sea";
      { SplitOutput1(); }
      Output1;
    }
  }

  // ---------------------------------------------------------------------------
  // find_itinerary on the first fixture: the unique cheapest itinerary flies hop 2 only

  lemma HopsInRange1()
    ensures HopsInRange(6, Requirements1)
  {
  }

  lemma Optimum1ServesAll()
    ensures |Optimum1| == 6 && ServesAll(Optimum1, Requirements1) && Cost(Optimum1) == 1
  {
    assert Airborne != BySea by { assert |Airborne| != |BySea|; }
    assert Served(Optimum1, Requirements1[0]) by { assert 0 in Requirements1[0]; }
    assert Served(Optimum1, Requirements1[1]) by { assert 0 in Requirements1[1]; }
    assert Served(Optimum1, Requirements1[2]) by { assert 5 in Requirements1[2]; }
    assert Served(Optimum1, Requirements1[3]) by { assert 2 in Requirements1[3]; }
    CostOfGrounding(Optimum1, 2);
    CostZero(Optimum1[2 := false]);
  }

  /** The last customer forces hop 2 airborne. */
  lemma HopTwoForced(b: Assignment)
    requires ServesAll(b, Requirements1)
    ensures 2 < |b| && b[2]
  {
    assert Served(b, Requirements1[3]);
    var h :| h in Requirements1[3] && h < |b| && (b[h] <==> Requirements1[3][h] == Airborne);
    assert h == 2;
  }

  lemma CheapestItinerary1(a: Assignment)
    ensures CheapestItinerary(a, 6, Requirements1) <==> a == Optimum1
  {
    Optimum1ServesAll();
    if CheapestItinerary(a, 6, Requirements1) {
      HopTwoForced(a);
      CostOfGrounding(a, 2);
      var grounded := a[2 := false];
      CostZero(grounded);
      forall i | 0 <= i < 6 ensures a[i] == Optimum1[i] {
        if i != 2 {
          assert !grounded[i];
        }
      }
    }
    if a == Optimum1 {
      forall b: Assignment | |b| == 6 && ServesAll(b, Requirements1) ensures Cost(a) <= Cost(b) {
        HopTwoForced(b);
        CostOfGrounding(b, 2);
      }
    }
  }

  /** `find_itinerary(6, requirements1)` returns the test's expected line. */
  method FindItinerary1() returns (r: Result<string, ItineraryError>)
    ensures r == Success(Output1)
  {
    r := FindItinerary(6, Requirements1);
    HopsInRange1();
    Optimum1ServesAll();
    assert r.Success? && r.value != NoItinerary;
    ghost var a :| CheapestItinerary(a, 6, Requirements1) && r.value == Render(a);
    CheapestItinerary1(a);
    RenderOptimum1();
  }

  // ---------------------------------------------------------------------------
  // find_itinerary on the second fixture: hop 0 is asked both ways

  lemma NoItinerary2()
    ensures HopsInRange(2, Requirements2) && !CanServeAll(2, Requirements2)
  {
    assert Airborne != BySea by { assert |Airborne| != |BySea|; }
    forall a: Assignment | |a| == 2 ensures !ServesAll(a, Requirements2) {
      assert Served(a, Requirements2[0]) ==> !a[0];
      assert Served(a, Requirements2[1]) ==> a[0];
    }
  }

  /** `find_itinerary(2, requirements2)` returns `NO ITINERARY`. */
  method FindItinerary2() returns (r: Result<string, ItineraryError>)
    ensures r == Success(NoItinerary)
  {
    NoItinerary2();
    r := FindItinerary(2, Requirements2);
  }

  // ---------------------------------------------------------------------------
  // Edge cases

  /** No hops and no customers: the empty itinerary. */
  method FindItineraryEmpty() returns (r: Result<string, ItineraryError>)
    ensures r == Success("")
  {
    r := FindItinerary(0, []);
    assert ServesAll([], []);
    assert r.Success? && r.value != NoItinerary;
    ghost var a :| CheapestItinerary(a, 0, []) && r.value == Render(a);
    RenderIsNotSentinel(a);
  }

  /** A customer naming hop 3 of a three-hop journey: the IndexError. */
  method FindItineraryOutOfRange() returns (r: Result<string, ItineraryError>)
    ensures r == Failure(HopOutOfRange(0, 3))
  {
    var reqs: seq<Requirement> := [map[3 := Airborne]];
    assert 3 in reqs[0];
    r := FindItinerary(3, reqs);
  }

  // ---------------------------------------------------------------------------
  // parse_input on the two fixtures

  /** The token `"d mode"` of a hop below 10. */
  function SmallTokenText(h: nat, airborne: bool): string
    requires h < 10
  {
    [DigitChar(h), ' '] + ModeName(airborne)
  }

  /** A token with a one-digit hop and a documented mode parses to that pair. */
  lemma SmallToken(h: nat, airborne: bool)
    requires h < 10
    ensures Parser.ParseToken(SmallTokenText(h, airborne)) == Success((h, ModeName(airborne)))
    ensures ',' !in SmallTokenText(h, airborne)
  {
    ModeNameIsWord(airborne);
    Parser.ParseTokenOfPair(h, ModeName(airborne));
    EntryCommaFree(h, airborne);
    assert NatToString(h) == [DigitChar(h)];
    assert SmallTokenText(h, airborne) == NatToString(h) + " " + ModeName(airborne);
  }

  /** A line written as the join of comma-free tokens parses as those tokens do. */
  lemma LineOfTokens(line: string, tokens: seq<string>, m: Requirement)
    requires |tokens| >= 1 && JoinItems(tokens) == line
    requires forall k :: 0 <= k < |tokens| ==> ',' !in tokens[k]
    requires Parser.ParseTokens(tokens) == Success(m)
    ensures Parser.ParseLine(line) == Success(m)
  {
    JoinThenSplit(tokens);
  }

  lemma OneTokenLine(h0: nat, a0: bool)
    requires h0 < 10
    ensures Parser.ParseLine(SmallTokenText(h0, a0)) == Success(map[h0 := ModeName(a0)])
  {
    var t0 := SmallTokenText(h0, a0);
    SmallToken(h0, a0);
    Parser.ParseTokensSnoc([], t0);
    assert [] + [t0] == [t0];
    LineOfTokens(t0, [t0], map[h0 := ModeName(a0)]);
  }

  /** Two parsed tokens give the dictionary with both pairs, the later one last. */
  lemma TwoTokens(t0: string, t1: string)
    requires Parser.ParseToken(t0).Success? && Parser.ParseToken(t1).Success?
    ensures Parser.ParseTokens([t0, t1])
            == Success(map[Parser.TokenHop(t0) := Parser.TokenMode(t0)][Parser.TokenHop(t1) := Parser.TokenMode(t1)])
  {
    Parser.ParseTokensSnoc([], t0);
    assert [] + [t0] == [t0];
    Parser.ParseTokensSnoc([t0], t1);
    assert [t0] + [t1] == [t0, t1];
  }

  lemma ThreeTokens(t0: string, t1: string, t2: string)
    requires Parser.ParseToken(t0).Success? && Parser.ParseToken(t1).Success? && Parser.ParseToken(t2).Success?
    ensures Parser.ParseTokens([t0, t1, t2])
            == Success(map[Parser.TokenHop(t0) := Parser.TokenMode(t0)][Parser.TokenHop(t1) := Parser.TokenMode(t1)]
                          [Parser.TokenHop(t2) := Parser.TokenMode(t2)])
  {
    TwoTokens(t0, t1);
    Parser.ParseTokensSnoc([t0, t1], t2);
    assert [t0, t1] + [t2] == [t0, t1, t2];
  }

  lemma TwoTokenLine(h0: nat, a0: bool, h1: nat, a1: bool)
    requires h0 < 10 && h1 < 10
    ensures Parser.ParseLine(JoinItems([SmallTokenText(h0, a0), SmallTokenText(h1, a1)]))
            == Success(map[h0 := ModeName(a0)][h1 := ModeName(a1)])
  {
    var t0, t1 := SmallTokenText(h0, a0), SmallTokenText(h1, a1);
    SmallToken(h0, a0);
    SmallToken(h1, a1);
    TwoTokens(t0, t1);
    LineOfTokens(JoinItems([t0, t1]), [t0, t1], map[h0 := ModeName(a0)][h1 := ModeName(a1)]);
  }

  lemma ThreeTokenLine(h0: nat, a0: bool, h1: nat, a1: bool, h2: nat, a2: bool)
    requires h0 < 10 && h1 < 10 && h2 < 10
    ensures Parser.ParseLine(JoinItems([SmallTokenText(h0, a0), SmallTokenText(h1, a1), SmallTokenText(h2, a2)]))
            == Success(map[h0 := ModeName(a0)][h1 := ModeName(a1)][h2 := ModeName(a2)])
  {
    var t0, t1, t2 := SmallTokenText(h0, a0), SmallTokenText(h1, a1), SmallTokenText(h2, a2);
    SmallToken(h0, a0);
    SmallToken(h1, a1);
    SmallToken(h2, a2);
    ThreeTokens(t0, t1, t2);
    LineOfTokens(JoinItems([t0, t1, t2]), [t0, t1, t2],
                 map[h0 := ModeName(a0)][h1 := ModeName(a1)][h2 := ModeName(a2)]);
  }

  lemma SmallNat(n: nat)
    requires n < 10
    ensures ParseNat([DigitChar(n)]) == Some(n)
  {
    ParseNatToString(n);
  }

  /** One more parsed line, named by its dictionary. */
  lemma LinesSnoc(lines: seq<string>, line: string, reqs: seq<Requirement>, m: Requirement)
    requires Parser.ParseLines(lines) == Success(reqs) && Parser.ParseLine(line) == Success(m)
    ensures Parser.ParseLines(lines + [line]) == Success(reqs + [m])
  {
    Parser.ParseLinesSnoc(lines, line);
  }

  lemma OneLine(l0: string, m0: Requirement)
    requires Parser.ParseLine(l0) == Success(m0)
    ensures Parser.ParseLines([l0]) == Success([m0])
  {
    var noLines: seq<string>, noReqs: seq<Requirement> := [], [];
    LinesSnoc(noLines, l0, noReqs, m0);
    assert noLines + [l0] == [l0] && noReqs + [m0] == [m0];
  }

  lemma TwoLines(l0: string, l1: string, m0: Requirement, m1: Requirement)
    requires Parser.ParseLine(l0) == Success(m0) && Parser.ParseLine(l1) == Success(m1)
    ensures Parser.ParseLines([l0, l1]) == Success([m0, m1])
  {
    OneLine(l0, m0);
    LinesSnoc([l0], l1, [m0], m1);
    assert [l0] + [l1] == [l0, l1] && [m0] + [m1] == [m0, m1];
  }

  /** Three body lines that each parse give the list of their dictionaries. */
  lemma ThreeLines(l0: string, l1: string, l2: string, m0: Requirement, m1: Requirement, m2: Requirement)
    requires Parser.ParseLine(l0) == Success(m0) && Parser.ParseLine(l1) == Success(m1)
    requires Parser.ParseLine(l2) == Success(m2)
    ensures Parser.ParseLines([l0, l1, l2]) == Success([m0, m1, m2])
  {
    TwoLines(l0, l1, m0, m1);
    LinesSnoc([l0, l1], l2, [m0, m1], m2);
    assert [l0, l1] + [l2] == [l0, l1, l2] && [m0, m1] + [m2] == [m0, m1, m2];
  }

  lemma FourLines(l0: string, l1: string, l2: string, l3: string,
                  m0: Requirement, m1: Requirement, m2: Requirement, m3: Requirement)
    requires Parser.ParseLine(l0) == Success(m0) && Parser.ParseLine(l1) == Success(m1)
    requires Parser.ParseLine(l2) == Success(m2) && Parser.ParseLine(l3) == Success(m3)
    ensures Parser.ParseLines([l0, l1, l2, l3]) == Success([m0, m1, m2, m3])
  {
    ThreeLines(l0, l1, l2, m0, m1, m2);
    LinesSnoc([l0, l1, l2], l3, [m0, m1, m2], m3);
    assert [l0, l1, l2] + [l3] == [l0, l1, l2, l3] && [m0, m1, m2] + [m3] == [m0, m1, m2, m3];
  }

  lemma Line1aText()
    ensures JoinItems([SmallTokenText(0, false), SmallTokenText(2, false), SmallTokenText(3, false)])
            == RawInput1[2]
  {
    assert SmallTokenText(0, false) == "0 by-sea";
    assert SmallTokenText(2, false) == "2 by-sea";
    assert SmallTokenText(3, false) == "3 by-sea";
    assert JoinItems(["3 by-sea"]) == "3 by-sea";
    assert JoinItems(["2 by-sea", "3 by-sea"]) == "2 by-sea, 3 by-sea";
  }

  lemma Line1bText()
    ensures JoinItems([SmallTokenText(0, false), SmallTokenText(5, true)]) == RawInput1[3]
  {
    assert SmallTokenText(0, false) == "0 by-sea";
    assert SmallTokenText(5, true) == "5 airborne";
  }

  lemma Line1cText()
    ensures JoinItems([SmallTokenText(0, true), SmallTokenText(5, false)]) == RawInput1[4]
  {
    assert SmallTokenText(0, true) == "0 airborne";
    assert SmallTokenText(5, false) == "5 by-sea";
  }

  /** The body lines of the first fixture, as joins of their tokens. */
  lemma Body1Text()
    ensures RawInput1[2..] ==
              [JoinItems([SmallTokenText(0, false), SmallTokenText(2, false), SmallTokenText(3, false)]),
               JoinItems([SmallTokenText(0, false), SmallTokenText(5, true)]),
               JoinItems([SmallTokenText(0, true), SmallTokenText(5, false)]),
               SmallTokenText(2, true)]
  {
    Line1aText();
    Line1bText();
    Line1cText();
    assert SmallTokenText(2, true) == RawInput1[5];
  }

  lemma Lines1()
    ensures Parser.ParseLines(RawInput1[2..]) == Success(Requirements1)
  {
    ThreeTokenLine(0, false, 2, false, 3, false);
    TwoTokenLine(0, false, 5, true);
    TwoTokenLine(0, true, 5, false);
    OneTokenLine(2, true);
    FourLines(JoinItems([SmallTokenText(0, false), SmallTokenText(2, false), SmallTokenText(3, false)]),
              JoinItems([SmallTokenText(0, false), SmallTokenText(5, true)]),
              JoinItems([SmallTokenText(0, true), SmallTokenText(5, false)]),
              SmallTokenText(2, true),
              map[0 := BySea][2 := BySea][3 := BySea], map[0 := BySea][5 := Airborne],
              map[0 := Airborne][5 := BySea], map[2 := Airborne]);
    Body1Text();
    assert Requirements1 == [map[0 := BySea][2 := BySea][3 := BySea], map[0 := BySea][5 := Airborne],
                             map[0 := Airborne][5 := BySea], map[2 := Airborne]];
  }

  /** The header counts and parsed body lines determine the whole parse. */
  lemma SpecOfParts(data: seq<string>, numHops: nat, numCustomers: nat, reqs: seq<Requirement>)
    requires |data| >= 2 && ParseNat(data[0]) == Some(numHops) && ParseNat(data[1]) == Some(numCustomers)
    requires Parser.ParseLines(data[2..]) == Success(reqs)
    ensures Parser.ParseSpec(data) == Success(Parser.Parsed(numHops, numCustomers, reqs))
  {
  }

  lemma ParseSpec1()
    ensures Parser.ParseSpec(RawInput1) == Success(Parser.Parsed(6, 4, Requirements1))
  {
    SmallNat(6);
    SmallNat(4);
    Lines1();
    SpecOfParts(RawInput1, 6, 4, Requirements1);
  }

  /** `parse_input(raw_input1)` gives (6, 4, requirements1). */
  method ParseInput1() returns (r: Result<Parser.Parsed, Parser.ParseError>)
    ensures r == Success(Parser.Parsed(6, 4, Requirements1))
  {
    r := Parser.ParseInput(RawInput1);
    ParseSpec1();
  }

  /** The body lines of the second fixture, one token each. */
  lemma Body2Text()
    ensures RawInput2[2..] == [SmallTokenText(0, false), SmallTokenText(0, true), SmallTokenText(1, false)]
  {
    assert SmallTokenText(0, false) == "0 by-sea" && SmallTokenText(0, true) == "0 airborne";
    assert SmallTokenText(1, false) == "1 by-sea";
  }

  lemma Lines2()
    ensures Parser.ParseLines(RawInput2[2..]) == Success(Requirements2)
  {
    OneTokenLine(0, false);
    OneTokenLine(0, true);
    OneTokenLine(1, false);
    ThreeLines(SmallTokenText(0, false), SmallTokenText(0, true), SmallTokenText(1, false),
               map[0 := BySea], map[0 := Airborne], map[1 := BySea]);
    Body2Text();
  }

  lemma ParseSpec2()
    ensures Parser.ParseSpec(RawInput2) == Success(Parser.Parsed(2, 3, Requirements2))
  {
    SmallNat(2);
    SmallNat(3);
    Lines2();
    SpecOfParts(RawInput2, 2, 3, Requirements2);
  }

  /** `parse_input(raw_input2)` gives (2, 3, requirements2). */
  method ParseInput2() returns (r: Result<Parser.Parsed, Parser.ParseError>)
    ensures r == Success(Parser.Parsed(2, 3, Requirements2))
  {
    r := Parser.ParseInput(RawInput2);
    ParseSpec2();
  }
}
