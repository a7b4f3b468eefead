/**
 * `find_itinerary`: each customer's dictionary becomes one clause over the hop
 * variables, the solver minimises the number of airborne hops, and the answer
 * is rendered as `"h mode"` entries joined by `", "`, or as `NO ITINERARY`.
 */
module Itinerary {
  import opened Wrappers
  import opened Text
  import opened MinOnes
  import Parser

  type Requirement = Parser.Requirement

  const Airborne: string := "airborne"
  const BySea: string := "by-sea"
  const NoItinerary: string := "NO ITINERARY"

  /** `hops[h]` with `h >= H` raises IndexError while the clauses are built. */
  datatype ItineraryError = HopOutOfRange(customer: nat, hop: nat)

  // ---------------------------------------------------------------------------
  // What a customer asks for

  /** Customer `req` is served by `a` when one of its pairs holds; a mode other
      than "airborne" asks for the hop to be by sea. */
  ghost predicate Served(a: Assignment, req: Requirement)
  {
    exists h :: h in req && h < |a| && (a[h] <==> req[h] == Airborne)
  }

  ghost predicate ServesAll(a: Assignment, reqs: seq<Requirement>)
  {
    forall i :: 0 <= i < |reqs| ==> Served(a, reqs[i])
  }

  ghost predicate CanServeAll(numHops: nat, reqs: seq<Requirement>)
  {
    exists a: Assignment :: |a| == numHops && ServesAll(a, reqs)
  }

  /** `a` serves every customer with as few airborne hops as any itinerary that does. */
  ghost predicate CheapestItinerary(a: Assignment, numHops: nat, reqs: seq<Requirement>)
  {
    && |a| == numHops && ServesAll(a, reqs)
    && forall b: Assignment :: |b| == numHops && ServesAll(b, reqs) ==> Cost(a) <= Cost(b)
  }

  /** Every hop named by a customer exists. */
  predicate HopsInRange(numHops: nat, reqs: seq<Requirement>)
  {
    forall i, h :: 0 <= i < |reqs| && h in reqs[i] ==> h < numHops
  }

  /** `e` names the first customer that mentions a hop out of range, and such a hop. */
  ghost predicate FirstOutOfRange(numHops: nat, reqs: seq<Requirement>, e: ItineraryError)
  {
    && e.customer < |reqs| && e.hop in reqs[e.customer] && numHops <= e.hop
    && HopsInRange(numHops, reqs[..e.customer])
  }

  // ---------------------------------------------------------------------------
  // Clause encoding

  /** The literal for a required pair: "airborne" gives the positive literal,
      any other mode string the negated one. */
  function LiteralOf(hop: nat, mode: string): Literal
  {
    Literal(hop, mode == Airborne)
  }

  /** Clause `c` holds exactly the literals of the pairs of `req`. */
  ghost predicate Encodes(c: Clause, req: Requirement)
  {
    && (forall i :: 0 <= i < |c| ==> c[i].hop in req && c[i] == LiteralOf(c[i].hop, req[c[i].hop]))
    && (forall h :: h in req ==> LiteralOf(h, req[h]) in c)
  }

  /** The rendered name of a hop's mode. */
  function ModeName(airborne: bool): string
  {
    if airborne then Airborne else BySea
  }

  /** For the two documented modes a literal holds exactly when the hop shows
      that mode; every other mode string is read as by sea. */
  lemma LiteralOfMeaning(a: Assignment, hop: nat, mode: string)
    ensures mode == Airborne || mode == BySea ==>
              (LiteralHolds(a, LiteralOf(hop, mode)) <==> hop < |a| && ModeName(a[hop]) == mode)
    ensures mode != Airborne ==> LiteralOf(hop, mode) == LiteralOf(hop, BySea)
  {
    assert Airborne != BySea by { assert |Airborne| != |BySea|; }
  }

  /** A clause that encodes a customer holds exactly when the customer is served. */
  lemma EncodedClauseHolds(a: Assignment, c: Clause, req: Requirement)
    requires Encodes(c, req)
    ensures ClauseHolds(a, c) <==> Served(a, req)
  {
    if ClauseHolds(a, c) {
      var i :| 0 <= i < |c| && LiteralHolds(a, c[i]);
      assert c[i].hop in req;
    }
    if Served(a, req) {
      var h :| h in req && h < |a| && (a[h] <==> req[h] == Airborne);
      var l := LiteralOf(h, req[h]);
      assert l in c;
      var i :| 0 <= i < |c| && c[i] == l;
      assert LiteralHolds(a, c[i]);
    }
  }

  /** The clauses satisfied are exactly the customers served. */
  lemma EncodedSatisfaction(a: Assignment, cs: seq<Clause>, reqs: seq<Requirement>)
    requires |cs| == |reqs| && forall i :: 0 <= i < |reqs| ==> Encodes(cs[i], reqs[i])
    ensures Satisfies(a, cs) <==> ServesAll(a, reqs)
  {
    forall i | 0 <= i < |reqs| ensures ClauseHolds(a, cs[i]) <==> Served(a, reqs[i]) {
      EncodedClauseHolds(a, cs[i], reqs[i]);
    }
  }

  /** The loop that turns each customer's dictionary into a clause, or stops at
      the first hop that has no variable. */
  method EncodeRequirements(numHops: nat, reqs: seq<Requirement>) returns (r: Result<seq<Clause>, ItineraryError>)
    ensures r.Failure? <==> !HopsInRange(numHops, reqs)
    ensures r.Failure? ==> FirstOutOfRange(numHops, reqs, r.error)
    ensures r.Success? ==> |r.value| == |reqs| && InRange(numHops, r.value)
    ensures r.Success? ==> forall i :: 0 <= i < |reqs| ==> Encodes(r.value[i], reqs[i])
  {
    var clauses: seq<Clause> := [];
    var i := 0;
    while i < |reqs|
      invariant 0 <= i <= |reqs| && |clauses| == i
      invariant HopsInRange(numHops, reqs[..i])
      invariant InRange(numHops, clauses)
      invariant forall k :: 0 <= k < i ==> Encodes(clauses[k], reqs[k])
    {
      var req := reqs[i];
      var constraints: Clause := [];
      var pending := req.Keys;
      while pending != {}
        invariant pending <= req.Keys
        invariant forall l :: 0 <= l < |constraints| ==>
                    constraints[l].hop in req && constraints[l].hop < numHops
                    && constraints[l] == LiteralOf(constraints[l].hop, req[constraints[l].hop])
        invariant forall h :: h in req && h !in pending ==> h < numHops && LiteralOf(h, req[h]) in constraints
        decreases pending
      {
        var h :| h in pending;
        if h >= numHops {
          assert reqs[..i + 1][..i] == reqs[..i];
          return Failure(HopOutOfRange(i, h));
        }
        constraints := constraints + [LiteralOf(h, req[h])];
        pending := pending - {h};
      }
      assert reqs[..i + 1] == reqs[..i] + [req];
      clauses := clauses + [constraints];
      i := i + 1;
    }
    assert reqs[..i] == reqs;
    return Success(clauses);
  }

  // ---------------------------------------------------------------------------
  // Output

  /** The entry `"h mode"` of every hop, in hop order. */
  function HopEntries(a: Assignment): seq<string>
  {
    seq(|a|, h requires 0 <= h < |a| => NatToString(h) + " " + ModeName(a[h]))
  }

  /** The itinerary line: the entries joined by `", "`. */
  function Render(a: Assignment): string
  {
    JoinItems(HopEntries(a))
  }

  /** The loop that builds the list of entries, then the join. */
  method FormatItinerary(a: Assignment) returns (s: string)
    ensures s == Render(a)
  {
    var itinerary: seq<string> := [];
    var h := 0;
    while h < |a|
      invariant 0 <= h <= |a|
      invariant itinerary == HopEntries(a)[..h]
    {
      var transport := if a[h] then Airborne else BySea;
      assert HopEntries(a)[..h + 1] == HopEntries(a)[..h] + [HopEntries(a)[h]];
      itinerary := itinerary + [NatToString(h) + " " + transport];
      h := h + 1;
    }
    assert HopEntries(a)[..h] == HopEntries(a);
    s := JoinItems(itinerary);
  }

  /** An itinerary line is never the infeasibility token; with no hops it is empty. */
  lemma RenderIsNotSentinel(a: Assignment)
    ensures Render(a) != NoItinerary
    ensures |a| == 0 <==> Render(a) == ""
  {
    if |a| > 0 {
      var entries := HopEntries(a);
      assert entries[0][0] == '0';
      assert Render(a)[0] == entries[0][0];
    }
  }

  /** The mode names are single words without commas. */
  lemma ModeNameIsWord(airborne: bool)
    ensures IsWord(ModeName(airborne)) && ',' !in ModeName(airborne)
  {
    var m := ModeName(airborne);
    forall i | 0 <= i < |m| ensures !IsSpace(m[i]) && m[i] != ',' {
      assert m[i] in "airborneby-sea";
    }
  }

  /** An entry contains no comma. */
  lemma EntryCommaFree(h: nat, airborne: bool)
    ensures ',' !in NatToString(h) + " " + ModeName(airborne)
  {
    var d := NatToString(h);
    ModeNameIsWord(airborne);
    assert forall i :: 0 <= i < |d| ==> IsDigit(d[i]);
  }

  /** The line lists one entry per hop, hops 0..H-1 in ascending order. */
  lemma RenderEntries(a: Assignment)
    requires |a| >= 1
    ensures SplitItems(Render(a)) == HopEntries(a)
  {
    var entries := HopEntries(a);
    forall k | 0 <= k < |entries| ensures ',' !in entries[k] {
      EntryCommaFree(k, a[k]);
    }
    JoinThenSplit(entries);
  }

  /** The dictionary from hop to mode of an assignment. */
  function ModeMap(a: Assignment): Requirement
  {
    map h | 0 <= h < |a| :: ModeName(a[h])
  }

  /** Read back as a customer line, an itinerary gives the mode of every hop. */
  lemma RenderParsesBack(a: Assignment)
    requires |a| >= 1
    ensures Parser.ParseLine(Render(a)) == Success(ModeMap(a))
  {
    RenderEntries(a);
    EntriesParse(a, |a|);
    assert HopEntries(a)[..|a|] == HopEntries(a);
    assert a[..|a|] == a;
  }

  lemma {:induction false} EntriesParse(a: Assignment, n: nat)
    requires n <= |a|
    ensures Parser.ParseTokens(HopEntries(a)[..n]) == Success(ModeMap(a[..n]))
    decreases n
  {
    var entries := HopEntries(a)[..n];
    if n == 0 {
      assert ModeMap(a[..0]) == map[];
    } else {
      EntriesParse(a, n - 1);
      assert entries[..n - 1] == HopEntries(a)[..n - 1];
      var mode := ModeName(a[n - 1]);
      assert entries[n - 1] == NatToString(n - 1) + " " + mode;
      ModeNameIsWord(a[n - 1]);
      Parser.ParseTokenOfPair(n - 1, mode);
      ModeMapPush(a, n);
    }
  }

  lemma ModeMapPush(a: Assignment, n: nat)
    requires 0 < n <= |a|
    ensures ModeMap(a[..n]) == ModeMap(a[..n - 1])[n - 1 := ModeName(a[n - 1])]
  {
    var m := ModeMap(a[..n]);
    var m' := ModeMap(a[..n - 1])[n - 1 := ModeName(a[n - 1])];
    assert m.Keys == m'.Keys;
    forall h | h in m ensures m[h] == m'[h] {
      assert a[..n][h] == a[h];
      if h < n - 1 {
        assert a[..n - 1][h] == a[h];
      }
    }
  }

  /** For customers using only the two documented modes, served means that the
      itinerary shows the required mode for at least one of their hops. */
  lemma ServedReadsOff(a: Assignment, req: Requirement)
    requires forall h :: h in req ==> req[h] == Airborne || req[h] == BySea
    ensures Served(a, req) <==> exists h :: h in req && h < |a| && ModeName(a[h]) == req[h]
  {
    assert Airborne != BySea by { assert |Airborne| != |BySea|; }
  }

  // ---------------------------------------------------------------------------
  // find_itinerary

  /** Build the clauses, solve, and render the outcome. */
  method FindItinerary(numHops: nat, reqs: seq<Requirement>) returns (r: Result<string, ItineraryError>)
    ensures r.Failure? <==> !HopsInRange(numHops, reqs)
    ensures r.Failure? ==> FirstOutOfRange(numHops, reqs, r.error)
    ensures r.Success? ==> (r.value == NoItinerary <==> !CanServeAll(numHops, reqs))
    ensures r.Success? && r.value != NoItinerary ==>
              exists a :: CheapestItinerary(a, numHops, reqs) && r.value == Render(a)
  {
    var encoded := EncodeRequirements(numHops, reqs);
    if encoded.Failure? {
      return Failure(encoded.error);
    }
    var clauses := encoded.value;
    var outcome := Solve(numHops, clauses);
    forall b: Assignment ensures Satisfies(b, clauses) <==> ServesAll(b, reqs) {
      EncodedSatisfaction(b, clauses, reqs);
    }
    match outcome
    case Optimal(a) =>
      var s := FormatItinerary(a);
      RenderIsNotSentinel(a);
      assert CheapestItinerary(a, numHops, reqs);
      return Success(s);
    case Infeasible =>
      return Success(NoItinerary);
  }
}
