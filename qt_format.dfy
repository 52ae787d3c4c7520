/** `QString::arg` with a string argument: the text is read as literal
    characters and place markers ('%', an optional 'L', then one or two
    decimal digits); every marker carrying the lowest number is replaced by
    the argument, and a text without markers is returned unchanged. */
module QtFormat {
  import opened Options
  import opened Text

  datatype Token = Literal(c: char) | Marker(raw: string, number: nat)

  /** The marker starting at the front of `s`, when there is one: its length
      and its number. */
  function MarkerAtFront(s: string): (r: Option<(nat, nat)>)
    ensures r.Some? ==> 2 <= r.value.0 <= |s| && r.value.0 <= 4
  {
    if s == [] || s[0] != '%' then None
    else
      var j := if |s| > 1 && s[1] == 'L' then 2 else 1;
      if j >= |s| || !IsDigit(s[j]) then None
      else if j + 1 < |s| && IsDigit(s[j + 1]) then Some((j + 2, DigitValue(s[j]) * 10 + DigitValue(s[j + 1])))
      else Some((j + 1, DigitValue(s[j])))
  }

  /** The text split into literal characters and markers, left to right. */
  function Tokenize(s: string): seq<Token>
    decreases |s|
  {
    if s == [] then []
    else match MarkerAtFront(s)
      case Some((len, n)) => [Marker(s[..len], n)] + Tokenize(s[len..])
      case None => [Literal(s[0])] + Tokenize(s[1..])
  }

  /** The text a token was read from. */
  function TokenText(t: Token): string {
    match t
    case Literal(c) => [c]
    case Marker(raw, _) => raw
  }

  function Render(tokens: seq<Token>): string {
    if tokens == [] then "" else TokenText(tokens[0]) + Render(tokens[1..])
  }

  lemma RenderCons(t: Token, rest: seq<Token>)
    ensures Render([t] + rest) == TokenText(t) + Render(rest)
  {
    assert ([t] + rest)[1..] == rest;
  }

  /** Splitting into tokens loses nothing. */
  lemma {:induction false} RenderTokenize(s: string)
    ensures Render(Tokenize(s)) == s
    decreases |s|
  {
    if s != [] {
      var m := MarkerAtFront(s);
      if m.Some? {
        var len := m.value.0;
        var rest := Tokenize(s[len..]);
        assert Tokenize(s) == [Marker(s[..len], m.value.1)] + rest;
        RenderCons(Marker(s[..len], m.value.1), rest);
        RenderTokenize(s[len..]);
        assert s == s[..len] + s[len..];
      } else {
        var rest := Tokenize(s[1..]);
        assert Tokenize(s) == [Literal(s[0])] + rest;
        RenderCons(Literal(s[0]), rest);
        RenderTokenize(s[1..]);
        assert s == [s[0]] + s[1..];
      }
    }
  }

  /** The lowest marker number among `tokens`. */
  function LowestMarker(tokens: seq<Token>): (r: Option<nat>)
    ensures r.None? <==> forall k :: 0 <= k < |tokens| ==> tokens[k].Literal?
    ensures r.Some? ==> exists k :: 0 <= k < |tokens| && tokens[k].Marker? && tokens[k].number == r.value
    ensures r.Some? ==> forall k :: 0 <= k < |tokens| && tokens[k].Marker? ==> r.value <= tokens[k].number
  {
    if tokens == [] then None
    else
      var rest := LowestMarker(tokens[1..]);
      match tokens[0]
      case Literal(_) =>
        assert forall k :: 1 <= k < |tokens| ==> tokens[k] == tokens[1..][k - 1];
        rest
      case Marker(_, n) =>
        assert forall k :: 1 <= k < |tokens| ==> tokens[k] == tokens[1..][k - 1];
        if rest.Some? && rest.value < n then rest else Some(n)
  }

  /** Every marker numbered `n` replaced by `a`, everything else kept. */
  function Substitute(tokens: seq<Token>, n: nat, a: string): string {
    if tokens == [] then ""
    else
      (match tokens[0]
       case Literal(c) => [c]
       case Marker(raw, m) => if m == n then a else raw)
      + Substitute(tokens[1..], n, a)
  }

  /** `s.arg(a)`. */
  function Arg(s: string, a: string): (r: string)
    ensures LowestMarker(Tokenize(s)).None? ==> r == s
  {
    match LowestMarker(Tokenize(s))
    case None => RenderTokenize(s); s
    case Some(n) => Substitute(Tokenize(s), n, a)
  }

  predicate PercentFree(s: string) {
    forall i :: 0 <= i < |s| ==> s[i] != '%'
  }

  function Literals(p: string): (r: seq<Token>)
    ensures |r| == |p|
    ensures forall k :: 0 <= k < |p| ==> r[k] == Literal(p[k])
  {
    seq(|p|, k requires 0 <= k < |p| => Literal(p[k]))
  }

  lemma TokenizeLiteralFront(c: char, t: string)
    requires c != '%'
    ensures Tokenize([c] + t) == [Literal(c)] + Tokenize(t)
  {
    var s := [c] + t;
    assert s[0] == c && s[1..] == t;
    assert MarkerAtFront(s).None?;
  }

  lemma TokenizeMarkerFront(d: char, t: string)
    requires IsDigit(d)
    requires t == [] || !IsDigit(t[0])
    ensures Tokenize(['%', d] + t) == [Marker(['%', d], DigitValue(d))] + Tokenize(t)
  {
    var s := ['%', d] + t;
    assert s[0] == '%' && s[1] == d;
    assert MarkerAtFront(s) == Some((2, DigitValue(d)));
    assert s[..2] == ['%', d] && s[2..] == t;
  }

  /** Text without '%' tokenizes into literals only. */
  lemma {:induction false} TokenizePercentFree(p: string, s: string)
    requires PercentFree(p)
    ensures Tokenize(p + s) == Literals(p) + Tokenize(s)
    decreases |p|
  {
    if p == [] {
      assert p + s == s;
      assert Literals(p) + Tokenize(s) == Tokenize(s);
    } else {
      assert p + s == [p[0]] + (p[1..] + s);
      TokenizeLiteralFront(p[0], p[1..] + s);
      TokenizePercentFree(p[1..], s);
      assert Literals(p) == [Literal(p[0])] + Literals(p[1..]);
      assert [Literal(p[0])] + (Literals(p[1..]) + Tokenize(s)) == Literals(p) + Tokenize(s);
    }
  }

  lemma {:induction false} SubstituteAfterLiterals(p: string, tokens: seq<Token>, n: nat, a: string)
    ensures Substitute(Literals(p) + tokens, n, a) == p + Substitute(tokens, n, a)
    decreases |p|
  {
    if p == [] {
      assert Literals(p) + tokens == tokens;
    } else {
      var all := Literals(p) + tokens;
      assert all[0] == Literal(p[0]);
      assert all[1..] == Literals(p[1..]) + tokens;
      SubstituteAfterLiterals(p[1..], tokens, n, a);
      assert Substitute(all, n, a) == [p[0]] + (p[1..] + Substitute(tokens, n, a));
      assert p == [p[0]] + p[1..];
    }
  }

  lemma {:induction false} LowestAfterLiterals(p: string, tokens: seq<Token>)
    ensures LowestMarker(Literals(p) + tokens) == LowestMarker(tokens)
    decreases |p|
  {
    if p == [] {
      assert Literals(p) + tokens == tokens;
    } else {
      var all := Literals(p) + tokens;
      assert all[0] == Literal(p[0]);
      assert all[1..] == Literals(p[1..]) + tokens;
      LowestAfterLiterals(p[1..], tokens);
    }
  }

  /** A prefix without '%' passes through `arg` untouched. */
  lemma ArgAfterPercentFree(p: string, s: string, a: string)
    requires PercentFree(p)
    ensures Arg(p + s, a) == p + Arg(s, a)
  {
    TokenizePercentFree(p, s);
    LowestAfterLiterals(p, Tokenize(s));
    match LowestMarker(Tokenize(s))
    case None =>
    case Some(n) => SubstituteAfterLiterals(p, Tokenize(s), n, a);
  }

  /** Every marker among `tokens` is numbered above `n`. */
  predicate MarkersAbove(tokens: seq<Token>, n: nat) {
    forall k :: 0 <= k < |tokens| && tokens[k].Marker? ==> tokens[k].number > n
  }

  lemma {:induction false} SubstituteNoMatch(tokens: seq<Token>, n: nat, a: string)
    requires MarkersAbove(tokens, n)
    ensures Substitute(tokens, n, a) == Render(tokens)
    decreases |tokens|
  {
    if tokens != [] {
      assert tokens[0].Marker? ==> tokens[0].number > n;
      assert MarkersAbove(tokens[1..], n) by {
        forall k | 0 <= k < |tokens[1..]| && tokens[1..][k].Marker?
          ensures tokens[1..][k].number > n
        {
          assert tokens[1..][k] == tokens[k + 1];
        }
      }
      SubstituteNoMatch(tokens[1..], n, a);
    }
  }

  /** A marker numbered `n` in front of markers numbered higher is the
      lowest, and substituting for it replaces just that front marker. */
  lemma LeadingMarker(raw: string, n: nat, rest: seq<Token>, a: string)
    requires MarkersAbove(rest, n)
    ensures LowestMarker([Marker(raw, n)] + rest) == Some(n)
    ensures Substitute([Marker(raw, n)] + rest, n, a) == a + Substitute(rest, n, a)
  {
    var all := [Marker(raw, n)] + rest;
    assert all[1..] == rest;
    assert all[0] == Marker(raw, n);
  }

  /** A marker numbered `d` in front of text whose markers are all numbered
      higher is the one `arg` replaces, and it is the only one. */
  lemma ArgLeadingLowest(d: char, t: string, a: string)
    requires IsDigit(d) && (t == [] || !IsDigit(t[0]))
    requires MarkersAbove(Tokenize(t), DigitValue(d))
    ensures Arg(['%', d] + t, a) == a + t
  {
    TokenizeMarkerFront(d, t);
    LeadingMarker(['%', d], DigitValue(d), Tokenize(t), a);
    SubstituteNoMatch(Tokenize(t), DigitValue(d), a);
    RenderTokenize(t);
  }

  /** `"%1_%2.%3".arg(a).arg(b).arg(c)`, the three arguments applied in turn. */
  function ArgChain3(a: string, b: string, c: string): string {
    Arg(Arg(Arg("%1_%2.%3", a), b), c)
  }

  lemma ArgLastOfThree(c: string)
    ensures Arg(".%3", c) == "." + c
  {
    assert ".%3" == "." + "%3";
    ArgAfterPercentFree(".", "%3", c);
    assert "%3" == ['%', '3'] + "";
    assert Tokenize("") == [];
    ArgLeadingLowest('3', "", c);
  }

  lemma DotThreeTokens()
    ensures Tokenize(".%3") == [Literal('.'), Marker("%3", 3)]
  {
    assert ".%3" == ['.'] + "%3";
    TokenizeLiteralFront('.', "%3");
    assert "%3" == ['%', '3'] + "";
    TokenizeMarkerFront('3', "");
  }

  lemma TwoDotThreeTokens()
    ensures Tokenize("%2.%3") == [Marker("%2", 2), Literal('.'), Marker("%3", 3)]
  {
    assert "%2.%3" == ['%', '2'] + ".%3";
    TokenizeMarkerFront('2', ".%3");
    DotThreeTokens();
  }

  lemma UnderTwoDotThreeTokens()
    ensures Tokenize("_%2.%3") == [Literal('_'), Marker("%2", 2), Literal('.'), Marker("%3", 3)]
  {
    assert "_%2.%3" == ['_'] + "%2.%3";
    TokenizeLiteralFront('_', "%2.%3");
    TwoDotThreeTokens();
  }

  lemma ArgTwoDotThree(b: string)
    ensures Arg("%2.%3", b) == b + ".%3"
  {
    assert "%2.%3" == ['%', '2'] + ".%3";
    assert MarkersAbove(Tokenize(".%3"), 2) by {
      DotThreeTokens();
    }
    ArgLeadingLowest('2', ".%3", b);
  }

  lemma ArgSecondOfThree(b: string)
    ensures Arg("_%2.%3", b) == "_" + b + ".%3"
  {
    assert "_%2.%3" == "_" + "%2.%3";
    ArgAfterPercentFree("_", "%2.%3", b);
    ArgTwoDotThree(b);
  }

  lemma ArgFirstOfThree(a: string)
    ensures Arg("%1_%2.%3", a) == a + "_%2.%3"
  {
    assert "%1_%2.%3" == ['%', '1'] + "_%2.%3";
    assert MarkersAbove(Tokenize("_%2.%3"), 1) by {
      UnderTwoDotThreeTokens();
    }
    ArgLeadingLowest('1', "_%2.%3", a);
  }

  /** With no '%' in the first two arguments, the chain yields
      "{a}_{b}.{c}". */
  lemma ArgChain3PercentFree(a: string, b: string, c: string)
    requires PercentFree(a) && PercentFree(b)
    ensures ArgChain3(a, b, c) == a + "_" + b + "." + c
  {
    ArgFirstOfThree(a);
    ArgLaterOfThree(Arg("%1_%2.%3", a), a, b, c);
  }

  lemma ArgLaterOfThree(s1: string, a: string, b: string, c: string)
    requires PercentFree(a) && PercentFree(b)
    requires s1 == a + "_%2.%3"
    ensures Arg(Arg(s1, b), c) == a + "_" + b + "." + c
  {
    ArgSecondAfterFirst(s1, a, b);
    var ab := a + "_" + b;
    assert PercentFree(ab);
    ArgThirdAfterSecond(Arg(s1, b), ab, c);
  }

  lemma ArgSecondAfterFirst(s1: string, a: string, b: string)
    requires PercentFree(a)
    requires s1 == a + "_%2.%3"
    ensures Arg(s1, b) == a + "_" + b + ".%3"
  {
    ArgAfterPercentFree(a, "_%2.%3", b);
    ArgSecondOfThree(b);
  }

  lemma ArgThirdAfterSecond(s2: string, ab: string, c: string)
    requires PercentFree(ab)
    requires s2 == ab + ".%3"
    ensures Arg(s2, c) == ab + "." + c
  {
    ArgAfterPercentFree(ab, ".%3", c);
    ArgLastOfThree(c);
  }

  /** `"%1_%2.%3".arg(base).arg(stamp).arg(ext)` when `base` is itself "%1":
      the second argument lands where the base name was and the third where
      the stamp belongs, leaving "%3" in the result. */
  lemma ArgChain3MarkerInBase(b: string, c: string)
    requires PercentFree(b)
    ensures ArgChain3("%1", b, c) == b + "_" + c + ".%3"
  {
    var s0 := "%1_%2.%3";
    ArgFirstOfThree("%1");
    assert "%1" + "_%2.%3" == s0;
    assert Arg(s0, "%1") == s0;
    var s1 := Arg(s0, b);
    ArgFirstOfThree(b);
    ArgSecondAfterFirst(s1, b, c);
    assert ArgChain3("%1", b, c) == Arg(s1, c);
  }

  lemma DigitsPercentFree(s: string)
    requires AllDigits(s)
    ensures PercentFree(s)
  {
    assert forall i :: 0 <= i < |s| ==> IsDigit(s[i]);
  }

  /** `"%1m".arg(d)` and `"%1h".arg(d)`: a single marker followed by a unit
      letter. */
  lemma ArgUnit(u: char, d: string)
    requires u != '%' && !IsDigit(u)
    ensures Arg(['%', '1', u], d) == d + [u]
  {
    assert ['%', '1', u] == ['%', '1'] + [u];
    assert [u] == [u] + "";
    TokenizeLiteralFront(u, "");
    assert Tokenize("") == [];
    ArgLeadingLowest('1', [u], d);
  }

  lemma TwoMinutesTokens()
    ensures Tokenize("%2m") == [Marker("%2", 2), Literal('m')]
  {
    assert "m" == ['m'] + "";
    TokenizeLiteralFront('m', "");
    assert "%2m" == ['%', '2'] + "m";
    TokenizeMarkerFront('2', "m");
  }

  lemma HoursMinutesTokens()
    ensures Tokenize("h %2m") == [Literal('h'), Literal(' '), Marker("%2", 2), Literal('m')]
  {
    TwoMinutesTokens();
    assert " %2m" == [' '] + "%2m";
    TokenizeLiteralFront(' ', "%2m");
    assert "h %2m" == ['h'] + " %2m";
    TokenizeLiteralFront('h', " %2m");
  }

  /** `"%1h %2m".arg(h).arg(m)` for a first argument without '%'. */
  lemma ArgHoursMinutes(h: string, m: string)
    requires PercentFree(h)
    ensures Arg(Arg("%1h %2m", h), m) == h + "h " + m + "m"
  {
    assert "%1h %2m" == ['%', '1'] + "h %2m";
    assert MarkersAbove(Tokenize("h %2m"), 1) by {
      HoursMinutesTokens();
    }
    ArgLeadingLowest('1', "h %2m", h);
    ArgHoursMinutesSecond(Arg("%1h %2m", h), h, m);
  }

  lemma ArgHoursMinutesSecond(s1: string, h: string, m: string)
    requires PercentFree(h)
    requires s1 == h + "h %2m"
    ensures Arg(s1, m) == h + "h " + m + "m"
  {
    var p := h + "h ";
    assert PercentFree(p);
    assert s1 == p + "%2m";
    ArgAfterPercentFree(p, "%2m", m);
    assert "%2m" == ['%', '2'] + "m";
    assert "m" == ['m'] + "";
    TokenizeLiteralFront('m', "");
    assert Tokenize("") == [];
    ArgLeadingLowest('2', "m", m);
  }
}
