/**
 * The Python string builtins that `parse_input` and `find_itinerary` rely on:
 * `str.split(", ")`, `str.split()`, `int(...)` on a decimal string, `str(h)`
 * and `", ".join(...)`.
 */
module Text {
  import opened Wrappers

  /** The separator between requirement tokens and between itinerary entries. */
  const ItemSeparator: string := ", "

  // ---------------------------------------------------------------------------
  // str.split(", ")

  /** Python's `s.split(", ")`: the pieces between the leftmost, non-overlapping
      occurrences of the separator. There is always at least one piece. */
  function SplitItems(s: string): (pieces: seq<string>)
    ensures |pieces| >= 1
    decreases |s|
  {
    if |s| < 2 then [s]
    else if s[0] == ',' && s[1] == ' ' then [""] + SplitItems(s[2..])
    else
      var rest := SplitItems(s[1..]);
      [[s[0]] + rest[0]] + rest[1..]
  }

  /** Python's `", ".join(pieces)`. */
  function JoinItems(pieces: seq<string>): (s: string)
  {
    if |pieces| == 0 then ""
    else if |pieces| == 1 then pieces[0]
    else pieces[0] + ItemSeparator + JoinItems(pieces[1..])
  }

  /** Joining two non-empty lists puts one separator between their joins. */
  lemma {:induction false} JoinAppend(p: seq<string>, q: seq<string>)
    requires |p| >= 1 && |q| >= 1
    ensures JoinItems(p + q) == JoinItems(p) + ItemSeparator + JoinItems(q)
    decreases |p|
  {
    if |p| == 1 {
      assert (p + q)[1..] == q;
    } else {
      JoinAppend(p[1..], q);
      assert (p + q)[1..] == p[1..] + q;
    }
  }

  /** `s` holds the separator ", " starting at index `i`. */
  predicate SeparatorAt(s: string, i: int)
  {
    0 <= i && i + 1 < |s| && s[i] == ',' && s[i + 1] == ' '
  }

  /** Prefixing the first piece with `c` prefixes the joined string with `c`. */
  lemma {:induction false} JoinConsFirst(c: char, pieces: seq<string>)
    requires |pieces| >= 1
    ensures JoinItems([[c] + pieces[0]] + pieces[1..]) == [c] + JoinItems(pieces)
  {
    var q := [[c] + pieces[0]] + pieces[1..];
    assert q[1..] == pieces[1..];
  }

  /** Splitting loses nothing: joining the pieces gives back the string, and no
      piece contains the separator. */
  lemma {:induction false} SplitItemsSound(s: string)
    ensures JoinItems(SplitItems(s)) == s
    ensures forall p, i :: p in SplitItems(s) ==> !SeparatorAt(p, i)
    decreases |s|
  {
    if |s| < 2 {
    } else if s[0] == ',' && s[1] == ' ' {
      var rest := SplitItems(s[2..]);
      SplitItemsSound(s[2..]);
      assert SplitItems(s) == [""] + rest;
      assert ([""] + rest)[1..] == rest;
      assert s == "" + ItemSeparator + s[2..];
    } else {
      var rest := SplitItems(s[1..]);
      SplitItemsSound(s[1..]);
      JoinConsFirst(s[0], rest);
      assert s == [s[0]] + s[1..];
      var first := [s[0]] + rest[0];
      forall p, i | p in SplitItems(s) ensures !SeparatorAt(p, i) {
        if p == first && SeparatorAt(p, i) {
          if i == 0 {
            SplitFirstPieceHead(s[1..]);
            assert false;
          } else {
            assert SeparatorAt(rest[0], i - 1);
            assert false;
          }
        }
      }
    }
  }

  /** A non-empty first piece starts with the string's first character. */
  lemma {:induction false} SplitFirstPieceHead(s: string)
    requires |s| >= 1
    ensures |SplitItems(s)[0]| >= 1 ==> SplitItems(s)[0][0] == s[0]
  {
  }

  /** A piece without a comma is taken whole as the first piece. */
  lemma {:induction false} SplitCommaFreePrefix(p: string, t: string)
    requires ',' !in p
    ensures SplitItems(p + t) == [p + SplitItems(t)[0]] + SplitItems(t)[1..]
    decreases |p|
  {
    if |p| == 0 {
      assert p + t == t;
      assert p + SplitItems(t)[0] == SplitItems(t)[0];
      assert [SplitItems(t)[0]] + SplitItems(t)[1..] == SplitItems(t);
    } else {
      var s := p + t;
      if |s| < 2 {
        assert t == [] && s == p;
      } else {
        assert s[0] == p[0] && s[0] != ',';
        assert s[1..] == p[1..] + t;
        assert ',' !in p[1..];
        SplitCommaFreePrefix(p[1..], t);
        var rest := SplitItems(s[1..]);
        assert SplitItems(s) == [[s[0]] + rest[0]] + rest[1..];
        assert rest[0] == p[1..] + SplitItems(t)[0];
        assert rest[1..] == SplitItems(t)[1..];
        assert [s[0]] + rest[0] == p + SplitItems(t)[0];
      }
    }
  }

  /** Joining comma-free pieces and splitting again gives back the pieces. */
  lemma {:induction false} JoinThenSplit(pieces: seq<string>)
    requires |pieces| >= 1
    requires forall k :: 0 <= k < |pieces| ==> ',' !in pieces[k]
    ensures SplitItems(JoinItems(pieces)) == pieces
    decreases |pieces|
  {
    if |pieces| == 1 {
      SplitCommaFreePrefix(pieces[0], "");
      assert pieces[0] + "" == pieces[0];
    } else {
      var tail := JoinItems(pieces[1..]);
      JoinThenSplit(pieces[1..]);
      var t := ItemSeparator + tail;
      assert t[2..] == tail;
      assert SplitItems(t) == [""] + pieces[1..];
      SplitCommaFreePrefix(pieces[0], t);
      assert pieces[0] + t == JoinItems(pieces);
      assert pieces[0] + "" == pieces[0];
      assert ([""] + pieces[1..])[1..] == pieces[1..];
      assert pieces == [pieces[0]] + pieces[1..];
    }
  }

  // ---------------------------------------------------------------------------
  // str.split() with no argument

  /** The characters Python's `str.isspace` accepts, which `str.split()` splits on. */
  predicate IsSpace(c: char)
  {
    var n := c as int;
    || 0x09 <= n <= 0x0D || 0x1C <= n <= 0x20 || n == 0x85 || n == 0xA0 || n == 0x1680
    || 0x2000 <= n <= 0x200A || n == 0x2028 || n == 0x2029 || n == 0x202F || n == 0x205F
    || n == 0x3000
  }

  /** A non-empty string with no whitespace in it. */
  predicate IsWord(w: string)
  {
    |w| >= 1 && forall i :: 0 <= i < |w| ==> !IsSpace(w[i])
  }

  /** Python's `s.split()`: the maximal runs of non-whitespace characters, in order. */
  function Fields(s: string): (fields: seq<string>)
    ensures |s| >= 1 && !IsSpace(s[0]) ==> |fields| >= 1 && |fields[0]| >= 1 && fields[0][0] == s[0]
    decreases |s|
  {
    if |s| == 0 then []
    else if IsSpace(s[0]) then Fields(s[1..])
    else
      var rest := Fields(s[1..]);
      if |s| == 1 || IsSpace(s[1]) then [[s[0]]] + rest
      else [[s[0]] + rest[0]] + rest[1..]
  }

  /** Every field is a word. */
  lemma {:induction false} FieldsAreWords(s: string)
    ensures forall k :: 0 <= k < |Fields(s)| ==> IsWord(Fields(s)[k])
    decreases |s|
  {
    if |s| >= 1 {
      FieldsAreWords(s[1..]);
    }
  }

  /** A string has no fields exactly when it is all whitespace. */
  lemma {:induction false} FieldsBlank(s: string)
    ensures Fields(s) == [] <==> forall i :: 0 <= i < |s| ==> IsSpace(s[i])
    decreases |s|
  {
    if |s| >= 1 && IsSpace(s[0]) {
      FieldsBlank(s[1..]);
      assert forall i :: 1 <= i < |s| ==> s[i] == s[1..][i - 1];
    }
  }

  /** A word followed by nothing or by whitespace is one field. */
  lemma {:induction false} FieldsOfWord(w: string, t: string)
    requires IsWord(w)
    requires |t| == 0 || IsSpace(t[0])
    ensures Fields(w + t) == [w] + Fields(t)
    decreases |w|
  {
    var s := w + t;
    assert s[0] == w[0];
    if |w| == 1 {
      assert s[1..] == t;
      assert w == [s[0]];
    } else {
      assert s[1..] == w[1..] + t;
      assert s[1] == w[1];
      FieldsOfWord(w[1..], t);
      assert w == [w[0]] + w[1..];
    }
  }

  /** Two words joined by a single space split back into exactly those two words. */
  lemma FieldsOfPair(a: string, b: string)
    requires IsWord(a) && IsWord(b)
    ensures Fields(a + " " + b) == [a, b]
  {
    var t := " " + b;
    FieldsOfWord(a, t);
    assert a + " " + b == a + t;
    assert t[1..] == b;
    FieldsOfWord(b, "");
    assert b + "" == b;
  }

  // ---------------------------------------------------------------------------
  // int(...) and str(...) on natural numbers

  predicate IsDigit(c: char)
  {
    '0' <= c <= '9'
  }

  predicate IsDigits(s: string)
  {
    forall i :: 0 <= i < |s| ==> IsDigit(s[i])
  }

  function DigitChar(d: nat): (c: char)
    requires d < 10
  {
    ('0' as int + d) as char
  }

  /** The value of a decimal string, most significant digit first. */
  function DigitsValue(s: string): nat
    requires IsDigits(s)
  {
    if |s| == 0 then 0
    else DigitsValue(s[..|s| - 1]) * 10 + (s[|s| - 1] as int - '0' as int)
  }

  /** `int(s)` for the strings this model admits: a non-empty run of decimal
      digits (leading zeros allowed, as in Python). */
  function ParseNat(s: string): (r: Option<nat>)
    ensures r.Some? <==> |s| >= 1 && IsDigits(s)
  {
    if |s| >= 1 && IsDigits(s) then Some(DigitsValue(s)) else None
  }

  /** `str(n)`: the decimal digits of `n`, with no leading zero. */
  function NatToString(n: nat): (s: string)
    ensures |s| >= 1 && IsDigits(s)
    ensures |s| > 1 ==> s[0] != '0'
  {
    if n < 10 then [DigitChar(n)] else NatToString(n / 10) + [DigitChar(n % 10)]
  }

  /** A decimal string that starts with a non-zero digit has a positive value. */
  lemma {:induction false} DigitsPositive(s: string)
    requires |s| >= 1 && IsDigits(s) && s[0] != '0'
    ensures DigitsValue(s) >= 1
    decreases |s|
  {
    if |s| > 1 {
      var init := s[..|s| - 1];
      assert init[0] == s[0];
      DigitsPositive(init);
    }
  }

  /** `str(int(s)) == s` for a digit string without a leading zero. */
  lemma {:induction false} StringOfParseNat(s: string)
    requires |s| >= 1 && IsDigits(s) && (|s| > 1 ==> s[0] != '0')
    ensures NatToString(ParseNat(s).value) == s
    decreases |s|
  {
    var v := DigitsValue(s);
    var d := s[|s| - 1] as int - '0' as int;
    if |s| == 1 {
      assert s[..0] == [];
      assert v == DigitsValue(s[..0]) * 10 + d;
      assert DigitChar(d) == s[0];
      assert NatToString(v) == [s[0]];
    } else {
      var init := s[..|s| - 1];
      assert init[0] == s[0];
      DigitsPositive(init);
      StringOfParseNat(init);
      assert v / 10 == DigitsValue(init) && v % 10 == d;
      assert DigitChar(d) == s[|s| - 1];
      assert init + [s[|s| - 1]] == s;
    }
  }

  /** `int(str(n)) == n`. */
  lemma {:induction false} ParseNatToString(n: nat)
    ensures ParseNat(NatToString(n)) == Some(n)
  {
    var s := NatToString(n);
    if n < 10 {
      assert s == [DigitChar(n)] && s[..|s| - 1] == [];
      assert DigitsValue(s) == DigitsValue([]) * 10 + (DigitChar(n) as int - '0' as int);
    } else {
      ParseNatToString(n / 10);
      assert s[..|s| - 1] == NatToString(n / 10);
      assert s[|s| - 1] == DigitChar(n % 10);
    }
  }
}
