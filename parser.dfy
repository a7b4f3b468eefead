/**
 * `parse_input`: the input lines become the hop count H, the customer count C
 * and one hop-to-mode dictionary per customer line.
 */
module Parser {
  import opened Wrappers
  import opened Text

  /** One customer's requirement: hop index to the mode string asked for it. */
  type Requirement = map<nat, string>

  /** The exceptions `parse_input` can raise. */
  datatype ParseError =
    | MissingLine(index: nat)         // `data[0]` or `data[1]` does not exist (IndexError)
    | NotAnInteger(text: string)      // `int(...)` rejects the text (ValueError)
    | WrongFieldCount(token: string)  // `key, value = req.split()` does not get two fields (ValueError)

  datatype Parsed = Parsed(numHops: nat, numCustomers: nat, requirements: seq<Requirement>)

  /** One `"hop mode"` token: exactly two whitespace-separated fields, the first a number. */
  function ParseToken(token: string): (r: Result<(nat, string), ParseError>)
  {
    var fields := Fields(token);
    if |fields| != 2 then Failure(WrongFieldCount(token))
    else match ParseNat(fields[0])
      case None => Failure(NotAnInteger(fields[0]))
      case Some(hop) => Success((hop, fields[1]))
  }

  /** The dictionary filled from `tokens` in order, or the error of the first bad token. */
  function ParseTokens(tokens: seq<string>): (r: Result<Requirement, ParseError>)
  {
    if |tokens| == 0 then Success(map[])
    else match ParseTokens(tokens[..|tokens| - 1])
      case Failure(e) => Failure(e)
      case Success(m) =>
        match ParseToken(tokens[|tokens| - 1])
        case Failure(e) => Failure(e)
        case Success(kv) => Success(m[kv.0 := kv.1])
  }

  /** One requirement line: its `", "`-separated tokens. */
  function ParseLine(line: string): Result<Requirement, ParseError>
  {
    ParseTokens(SplitItems(line))
  }

  /** The requirement lines in order, or the error of the first bad line. */
  function ParseLines(lines: seq<string>): (r: Result<seq<Requirement>, ParseError>)
  {
    if |lines| == 0 then Success([])
    else match ParseLines(lines[..|lines| - 1])
      case Failure(e) => Failure(e)
      case Success(rs) =>
        match ParseLine(lines[|lines| - 1])
        case Failure(e) => Failure(e)
        case Success(m) => Success(rs + [m])
  }

  /** What `parse_input(data)` returns or raises. */
  function ParseSpec(data: seq<string>): (r: Result<Parsed, ParseError>)
  {
    if |data| < 1 then Failure(MissingLine(0))
    else match ParseNat(data[0])
      case None => Failure(NotAnInteger(data[0]))
      case Some(numHops) =>
        if |data| < 2 then Failure(MissingLine(1))
        else match ParseNat(data[1])
          case None => Failure(NotAnInteger(data[1]))
          case Some(numCustomers) =>
            match ParseLines(data[2..])
            case Failure(e) => Failure(e)
            case Success(rs) => Success(Parsed(numHops, numCustomers, rs))
  }

  /** `parse_input`: a loop over the lines from index 2 on and, inside it, a loop
      over the tokens of the line that fills the dictionary in place. */
  method ParseInput(data: seq<string>) returns (r: Result<Parsed, ParseError>)
    ensures r == ParseSpec(data)
  {
    if |data| < 1 {
      return Failure(MissingLine(0));
    }
    var numHops := ParseNat(data[0]);
    if numHops.None? {
      return Failure(NotAnInteger(data[0]));
    }
    if |data| < 2 {
      return Failure(MissingLine(1));
    }
    var numCustomers := ParseNat(data[1]);
    if numCustomers.None? {
      return Failure(NotAnInteger(data[1]));
    }
    var lines := data[2..];
    var requirementsList: seq<Requirement> := [];
    var i := 0;
    while i < |lines|
      invariant 0 <= i <= |lines|
      invariant ParseLines(lines[..i]) == Success(requirementsList)
    {
      var tokens := SplitItems(lines[i]);
      var reqDict: Requirement := map[];
      var j := 0;
      while j < |tokens|
        invariant 0 <= j <= |tokens|
        invariant ParseTokens(tokens[..j]) == Success(reqDict)
      {
        var fields := Fields(tokens[j]);
        if |fields| != 2 {
          LineFails(lines, i, tokens, j);
          return Failure(WrongFieldCount(tokens[j]));
        }
        var key := ParseNat(fields[0]);
        if key.None? {
          LineFails(lines, i, tokens, j);
          return Failure(NotAnInteger(fields[0]));
        }
        assert tokens[..j + 1][..j] == tokens[..j];
        reqDict := reqDict[key.value := fields[1]];
        j := j + 1;
      }
      assert tokens[..j] == tokens;
      assert lines[..i + 1][..i] == lines[..i];
      requirementsList := requirementsList + [reqDict];
      i := i + 1;
    }
    assert lines[..i] == lines;
    return Success(Parsed(numHops.value, numCustomers.value, requirementsList));
  }

  /** The error of token `j` of line `i` is the error of the whole input. */
  lemma LineFails(lines: seq<string>, i: nat, tokens: seq<string>, j: nat)
    requires i < |lines| && tokens == SplitItems(lines[i]) && j < |tokens|
    requires ParseLines(lines[..i]).Success? && ParseTokens(tokens[..j]).Success?
    requires ParseToken(tokens[j]).Failure?
    ensures ParseLines(lines) == Failure(ParseToken(tokens[j]).error)
  {
    TokenFails(tokens, j);
    LineFailsAt(lines, i);
  }

  /** A failing token after good ones is the error of the whole line. */
  lemma TokenFails(tokens: seq<string>, j: nat)
    requires j < |tokens| && ParseTokens(tokens[..j]).Success? && ParseToken(tokens[j]).Failure?
    ensures ParseTokens(tokens) == Failure(ParseToken(tokens[j]).error)
  {
    var prefix := tokens[..j + 1];
    assert prefix[..j] == tokens[..j];
    assert prefix[j] == tokens[j];
    assert ParseTokens(prefix) == Failure(ParseToken(tokens[j]).error);
    TokensFailureSticks(tokens, j + 1);
  }

  /** A failing line after good ones is the error of the whole input. */
  lemma LineFailsAt(lines: seq<string>, i: nat)
    requires i < |lines| && ParseLines(lines[..i]).Success? && ParseLine(lines[i]).Failure?
    ensures ParseLines(lines) == Failure(ParseLine(lines[i]).error)
  {
    var prefix := lines[..i + 1];
    assert prefix[..i] == lines[..i];
    assert prefix[i] == lines[i];
    assert ParseLines(prefix) == Failure(ParseLine(lines[i]).error);
    LinesFailureSticks(lines, i + 1);
  }

  /** Once a token fails, later tokens do not change the outcome. */
  lemma {:induction false} TokensFailureSticks(tokens: seq<string>, k: nat)
    requires k <= |tokens| && ParseTokens(tokens[..k]).Failure?
    ensures ParseTokens(tokens) == ParseTokens(tokens[..k])
    decreases |tokens|
  {
    if k < |tokens| {
      var init := tokens[..|tokens| - 1];
      assert init[..k] == tokens[..k];
      TokensFailureSticks(init, k);
    } else {
      assert tokens[..k] == tokens;
    }
  }

  /** Once a line fails, later lines do not change the outcome. */
  lemma {:induction false} LinesFailureSticks(lines: seq<string>, k: nat)
    requires k <= |lines| && ParseLines(lines[..k]).Failure?
    ensures ParseLines(lines) == ParseLines(lines[..k])
    decreases |lines|
  {
    if k < |lines| {
      var init := lines[..|lines| - 1];
      assert init[..k] == lines[..k];
      LinesFailureSticks(init, k);
    } else {
      assert lines[..k] == lines;
    }
  }

  /** A line parses exactly when every token does; otherwise the error is that
      of the first bad token. */
  lemma {:induction false} ParseTokensOutcome(tokens: seq<string>)
    ensures ParseTokens(tokens).Success? <==>
              forall k :: 0 <= k < |tokens| ==> ParseToken(tokens[k]).Success?
    ensures ParseTokens(tokens).Failure? ==>
              exists k :: 0 <= k < |tokens| && ParseToken(tokens[k]) == Failure(ParseTokens(tokens).error)
                       && forall l :: 0 <= l < k ==> ParseToken(tokens[l]).Success?
    decreases |tokens|
  {
    if |tokens| > 0 {
      var n := |tokens| - 1;
      var init := tokens[..n];
      ParseTokensOutcome(init);
      assert forall k :: 0 <= k < n ==> init[k] == tokens[k];
    }
  }

  /** The key of a token that parses. */
  function TokenHop(token: string): nat
    requires ParseToken(token).Success?
  {
    ParseToken(token).value.0
  }

  /** The mode of a token that parses. */
  function TokenMode(token: string): string
    requires ParseToken(token).Success?
  {
    ParseToken(token).value.1
  }

  /** No token after `k` names the same hop as token `k`. */
  ghost predicate LastForHop(tokens: seq<string>, k: nat)
    requires k < |tokens| && forall i :: 0 <= i < |tokens| ==> ParseToken(tokens[i]).Success?
  {
    forall l :: k < l < |tokens| ==> TokenHop(tokens[l]) != TokenHop(tokens[k])
  }

  /** The dictionary of a line has exactly the hops its tokens name as keys. */
  lemma {:induction false} ParseTokensKeys(tokens: seq<string>)
    requires ParseTokens(tokens).Success?
    ensures forall k :: 0 <= k < |tokens| ==> ParseToken(tokens[k]).Success?
    ensures forall h :: h in ParseTokens(tokens).value <==>
              exists k :: 0 <= k < |tokens| && TokenHop(tokens[k]) == h
    decreases |tokens|
  {
    ParseTokensOutcome(tokens);
    if |tokens| > 0 {
      var n := |tokens| - 1;
      var init := tokens[..n];
      ParseTokensKeys(init);
      assert forall k :: 0 <= k < n ==> init[k] == tokens[k];
      var m := ParseTokens(tokens).value;
      var last := tokens[n];
      assert m == ParseTokens(init).value[TokenHop(last) := TokenMode(last)];
      forall h | h in m ensures exists k :: 0 <= k < |tokens| && TokenHop(tokens[k]) == h {
        if h != TokenHop(last) {
          var k :| 0 <= k < n && TokenHop(init[k]) == h;
          assert TokenHop(tokens[k]) == h;
        } else {
          assert TokenHop(tokens[n]) == h;
        }
      }
    }
  }

  /** Each hop of a line maps to the mode of the LAST token naming it: a repeated
      hop takes the mode of its final occurrence. */
  lemma {:induction false} ParseTokensLastWins(tokens: seq<string>, k: nat)
    requires ParseTokens(tokens).Success?
    requires k < |tokens|
    ensures forall i :: 0 <= i < |tokens| ==> ParseToken(tokens[i]).Success?
    ensures TokenHop(tokens[k]) in ParseTokens(tokens).value
    ensures LastForHop(tokens, k) ==> ParseTokens(tokens).value[TokenHop(tokens[k])] == TokenMode(tokens[k])
    decreases |tokens|
  {
    ParseTokensKeys(tokens);
    var n := |tokens| - 1;
    var init := tokens[..n];
    assert forall i :: 0 <= i < n ==> init[i] == tokens[i];
    var last := tokens[n];
    var m := ParseTokens(tokens).value;
    assert m == ParseTokens(init).value[TokenHop(last) := TokenMode(last)];
    if k < n && LastForHop(tokens, k) {
      ParseTokensLastWins(init, k);
      assert TokenHop(last) != TokenHop(tokens[k]);
      assert LastForHop(init, k);
    }
  }

  /** The parsed lines are one dictionary per line, in order, or the error of the
      first bad line. */
  lemma {:induction false} ParseLinesOutcome(lines: seq<string>)
    ensures ParseLines(lines).Success? <==>
              forall k :: 0 <= k < |lines| ==> ParseLine(lines[k]).Success?
    ensures ParseLines(lines).Success? ==>
              |ParseLines(lines).value| == |lines|
              && forall k :: 0 <= k < |lines| ==> ParseLines(lines).value[k] == ParseLine(lines[k]).value
    ensures ParseLines(lines).Failure? ==>
              exists k :: 0 <= k < |lines| && ParseLine(lines[k]) == Failure(ParseLines(lines).error)
                       && forall l :: 0 <= l < k ==> ParseLine(lines[l]).Success?
    decreases |lines|
  {
    if |lines| > 0 {
      var n := |lines| - 1;
      var init := lines[..n];
      ParseLinesOutcome(init);
      assert forall k :: 0 <= k < n ==> init[k] == lines[k];
    }
  }

  /** `parse_input` reads H from line 0 and C from line 1 and returns one
      dictionary per later line, in order, however many lines C announces. */
  lemma ParseSpecOutcome(data: seq<string>)
    ensures ParseSpec(data).Success? <==>
              |data| >= 2 && ParseNat(data[0]).Some? && ParseNat(data[1]).Some?
              && forall i :: 2 <= i < |data| ==> ParseLine(data[i]).Success?
    ensures ParseSpec(data).Success? ==>
              var p := ParseSpec(data).value;
              && p.numHops == ParseNat(data[0]).value
              && p.numCustomers == ParseNat(data[1]).value
              && |p.requirements| == |data| - 2
              && forall i :: 0 <= i < |p.requirements| ==> p.requirements[i] == ParseLine(data[i + 2]).value
  {
    if |data| >= 2 {
      var lines := data[2..];
      ParseLinesOutcome(lines);
      assert forall i :: 2 <= i < |data| ==> data[i] == lines[i - 2];
    }
  }

  /** One more good token adds its pair to the dictionary, replacing any earlier mode of its hop. */
  lemma ParseTokensSnoc(tokens: seq<string>, token: string)
    requires ParseTokens(tokens).Success? && ParseToken(token).Success?
    ensures ParseTokens(tokens + [token])
            == Success(ParseTokens(tokens).value[TokenHop(token) := TokenMode(token)])
  {
    assert (tokens + [token])[..|tokens|] == tokens;
  }

  /** One more good line adds its dictionary at the end. */
  lemma ParseLinesSnoc(lines: seq<string>, line: string)
    requires ParseLines(lines).Success? && ParseLine(line).Success?
    ensures ParseLines(lines + [line]) == Success(ParseLines(lines).value + [ParseLine(line).value])
  {
    assert (lines + [line])[..|lines|] == lines;
  }

  /** A well-formed token `"h mode"` parses to the pair (h, mode). */
  lemma ParseTokenOfPair(hop: nat, mode: string)
    requires IsWord(mode)
    ensures ParseToken(NatToString(hop) + " " + mode) == Success((hop, mode))
  {
    var key := NatToString(hop);
    assert IsWord(key) by {
      forall i | 0 <= i < |key| ensures !IsSpace(key[i]) {
        assert IsDigit(key[i]);
      }
    }
    FieldsOfPair(key, mode);
    ParseNatToString(hop);
  }
}
