/**
  The text of the `-filter:v:0` argument that index.js hands to ffmpeg:
  `crop=W:H:'` on the first line, one `if(guard,st(0,value));` line per
  clause, then `ld(0)` and `':0`. The crop filter takes the quoted
  expression as its x offset and 0 as its y offset.

  Every rendering function here has a parser beside it, and the round trips
  are proved: the script determines the target size and the whole clause
  list it was made from.
 */
module FilterScript {
  import opened Wrappers
  import opened CropExpression
  import CropTimeline
  import opened SeqFacts

  // ---------------------------------------------------------------------
  // Decimal numerals, as a template literal prints an integer of magnitude
  // below 10^21 (larger ones JavaScript prints in exponent form).
  // ---------------------------------------------------------------------

  predicate IsDigit(c: char)
  {
    '0' <= c <= '9'
  }

  function DigitChar(d: int): (c: char)
    requires 0 <= d < 10
    ensures IsDigit(c) && DigitValue(c) == d
  {
    (48 + d) as char
  }

  function DigitValue(c: char): int
  {
    c as int - 48
  }

  predicate AllDigits(s: string)
  {
    forall k :: 0 <= k < |s| ==> IsDigit(s[k])
  }

  /** The characters a numeral is made of: digits and the minus sign. */
  predicate Numeral(s: string)
  {
    forall k :: 0 <= k < |s| ==> IsDigit(s[k]) || s[k] == '-'
  }

  /** The decimal digits of `n`, most significant first, with no leading zero. */
  function NatToString(n: nat): (s: string)
    ensures |s| >= 1 && AllDigits(s)
  {
    if n < 10 then [DigitChar(n)] else NatToString(n / 10) + [DigitChar(n % 10)]
  }

  /** The number a string of digits denotes. */
  function DigitsValue(s: string): (v: int)
    ensures AllDigits(s) ==> v >= 0
  {
    if s == [] then 0 else DigitsValue(s[..|s| - 1]) * 10 + DigitValue(s[|s| - 1])
  }

  /** Reading back the digits of `n` gives `n`. */
  lemma {:induction false} NatRoundTrip(n: nat)
    ensures DigitsValue(NatToString(n)) == n
  {
    if n >= 10 {
      var s := NatToString(n);
      assert s[..|s| - 1] == NatToString(n / 10);
      NatRoundTrip(n / 10);
    }
  }

  function ParseNat(s: string): (r: Option<nat>)
    ensures r.Some? ==> s != [] && AllDigits(s)
  {
    if s != [] && AllDigits(s) then Some(DigitsValue(s)) else None
  }

  /**
    An integer as a template literal prints it when its magnitude is below
    10^21: a minus sign before the digits of a negative one.
   */
  function IntToString(i: int): (s: string)
    ensures |s| >= 1 && Numeral(s)
    ensures s[0] == '-' <==> i < 0
  {
    if i < 0 then "-" + NatToString(-i) else NatToString(i)
  }

  function ParseInt(s: string): (r: Option<int>)
  {
    var digits := if |s| >= 1 && s[0] == '-' then s[1..] else s;
    var m := ParseNat(digits);
    if m.None? then None
    else if digits == s then Some(m.value)
    else Some(-(m.value as int))
  }

  /** Every integer is read back from its numeral. */
  lemma IntRoundTrip(i: int)
    ensures ParseInt(IntToString(i)) == Some(i)
  {
    var s := IntToString(i);
    if i < 0 {
      assert s[1..] == NatToString(-i);
      ParseNatOf(-i);
    } else {
      ParseNatOf(i);
    }
  }

  lemma ParseNatOf(n: nat)
    ensures ParseNat(NatToString(n)) == Some(n)
  {
    NatRoundTrip(n);
  }

  /** Distinct integers print as distinct numerals. */
  lemma IntToStringInjective(i: int, j: int)
    requires IntToString(i) == IntToString(j)
    ensures i == j
  {
    IntRoundTrip(i);
    IntRoundTrip(j);
  }

  /** No separator used by the script occurs inside a numeral. */
  lemma NumeralExcludes(s: string, c: char)
    requires Numeral(s) && !IsDigit(c) && c != '-'
    ensures c !in s
  {
  }

  // ---------------------------------------------------------------------
  // Taking strings apart.
  // ---------------------------------------------------------------------

  function StripPrefix(p: string, s: string): (r: Option<string>)
    ensures r.Some? <==> |p| <= |s| && s[..|p|] == p
    ensures r.Some? ==> s == p + r.value
  {
    if |p| <= |s| && s[..|p|] == p then Some(s[|p|..]) else None
  }

  function StripSuffix(q: string, s: string): (r: Option<string>)
    ensures r.Some? <==> |q| <= |s| && s[|s| - |q|..] == q
    ensures r.Some? ==> s == r.value + q
  {
    if |q| <= |s| && s[|s| - |q|..] == q then Some(s[..|s| - |q|]) else None
  }

  lemma StripPrefixOf(p: string, s: string)
    ensures StripPrefix(p, p + s) == Some(s)
  {
    assert (p + s)[..|p|] == p;
    assert (p + s)[|p|..] == s;
  }

  lemma StripSuffixOf(s: string, q: string)
    ensures StripSuffix(q, s + q) == Some(s)
  {
    assert (s + q)[|s|..] == q;
    assert (s + q)[..|s|] == s;
  }

  /** The first position of `c` in `s`. */
  function Find(s: string, c: char): (r: Option<nat>)
    ensures r.Some? ==> r.value < |s| && s[r.value] == c && c !in s[..r.value]
    ensures r.None? ==> c !in s
  {
    if s == [] then None
    else if s[0] == c then Some(0)
    else
      match Find(s[1..], c)
      case None => None
      case Some(k) =>
        assert s[..k + 1] == [s[0]] + s[1..][..k];
        Some(k + 1)
  }

  lemma FindAfter(x: string, c: char, y: string)
    requires c !in x
    ensures Find(x + [c] + y, c) == Some(|x|)
  {
    var s := x + [c] + y;
    assert s[|x|] == c;
  }

  /** The text before and after the first `c` in `s`. */
  function SplitOnce(s: string, c: char): (r: Option<(string, string)>)
    ensures r.Some? ==> s == r.value.0 + [c] + r.value.1 && c !in r.value.0
  {
    match Find(s, c)
    case None => None
    case Some(k) =>
      assert s == s[..k] + [c] + s[k + 1..];
      Some((s[..k], s[k + 1..]))
  }

  lemma SplitOnceOf(x: string, c: char, y: string)
    requires c !in x
    ensures SplitOnce(x + [c] + y, c) == Some((x, y))
  {
    var s := x + [c] + y;
    FindAfter(x, c, y);
    assert s[..|x|] == x;
    assert s[|x| + 1..] == y;
  }

  // ---------------------------------------------------------------------
  // Guards and values.
  // ---------------------------------------------------------------------

  function RenderGuard(g: Guard): (s: string)
    ensures 's' !in s && '\n' !in s
  {
    match g
    case Eq(k) =>
      NumeralExcludes(IntToString(k), 's');
      NumeralExcludes(IntToString(k), '\n');
      "eq(n," + IntToString(k) + ")"
    case Between(lo, hi) =>
      NumeralExcludes(IntToString(lo), 's');
      NumeralExcludes(IntToString(lo), '\n');
      NumeralExcludes(IntToString(hi), 's');
      NumeralExcludes(IntToString(hi), '\n');
      "between(n," + IntToString(lo) + "," + IntToString(hi) + ")"
    case Gte(k) =>
      NumeralExcludes(IntToString(k), 's');
      NumeralExcludes(IntToString(k), '\n');
      "gte(n," + IntToString(k) + ")"
  }

  function ParseGuard(s: string): Option<Guard>
  {
    match StripSuffix(")", s)
    case None => None
    case Some(body) =>
      if StripPrefix("eq(n,", body).Some? then
        match ParseInt(StripPrefix("eq(n,", body).value)
        case None => None
        case Some(k) => Some(Eq(k))
      else if StripPrefix("gte(n,", body).Some? then
        match ParseInt(StripPrefix("gte(n,", body).value)
        case None => None
        case Some(k) => Some(Gte(k))
      else if StripPrefix("between(n,", body).Some? then
        match SplitOnce(StripPrefix("between(n,", body).value, ',')
        case None => None
        case Some((lo, hi)) =>
          match (ParseInt(lo), ParseInt(hi))
          case (Some(l), Some(h)) => Some(Between(l, h))
          case _ => None
      else None
  }

  /** Every guard is read back from its text. */
  lemma GuardRoundTrip(g: Guard)
    ensures ParseGuard(RenderGuard(g)) == Some(g)
  {
    match g
    case Eq(k) => EqRoundTrip(k);
    case Gte(k) => GteRoundTrip(k);
    case Between(lo, hi) => BetweenRoundTrip(lo, hi);
  }

  /** Texts that differ in their first character do not start with one another. */
  lemma FirstCharDiffers(p: string, s: string)
    requires p != [] && s != [] && p[0] != s[0]
    ensures StripPrefix(p, s).None?
  {
    if |p| <= |s| {
      assert s[..|p|][0] == s[0];
    }
  }

  lemma EqRoundTrip(k: int)
    ensures ParseGuard(RenderGuard(Eq(k))) == Some(Eq(k))
  {
    var num := IntToString(k);
    var body := "eq(n," + num;
    assert RenderGuard(Eq(k)) == body + ")";
    StripSuffixOf(body, ")");
    StripPrefixOf("eq(n,", num);
    IntRoundTrip(k);
  }

  lemma GteRoundTrip(k: int)
    ensures ParseGuard(RenderGuard(Gte(k))) == Some(Gte(k))
  {
    var num := IntToString(k);
    var body := "gte(n," + num;
    assert RenderGuard(Gte(k)) == body + ")";
    StripSuffixOf(body, ")");
    FirstCharDiffers("eq(n,", body);
    StripPrefixOf("gte(n,", num);
    IntRoundTrip(k);
  }

  lemma BetweenRoundTrip(lo: int, hi: int)
    ensures ParseGuard(RenderGuard(Between(lo, hi))) == Some(Between(lo, hi))
  {
    var l, h := IntToString(lo), IntToString(hi);
    var args := l + [','] + h;
    var body := "between(n," + args;
    assert RenderGuard(Between(lo, hi)) == body + ")";
    StripSuffixOf(body, ")");
    FirstCharDiffers("eq(n,", body);
    FirstCharDiffers("gte(n,", body);
    StripPrefixOf("between(n,", args);
    NumeralExcludes(l, ',');
    SplitOnceOf(l, ',', h);
    IntRoundTrip(lo);
    IntRoundTrip(hi);
  }

  function RenderValue(v: Value): (s: string)
    ensures '\n' !in s
  {
    match v
    case Const(c) =>
      NumeralExcludes(IntToString(c), '\n');
      IntToString(c)
    case Lerp(a, b, p) =>
      NumeralExcludes(IntToString(a), '\n');
      NumeralExcludes(IntToString(b), '\n');
      NumeralExcludes(IntToString(p), '\n');
      "lerp(" + IntToString(a) + "," + IntToString(b) + "," + PeriodText(p) + ")"
  }

  /** The third argument of a `lerp` value: `(mod(n-1,P)+1)/P`. */
  function PeriodText(p: Interval): (s: string)
  {
    "(mod(n-1," + IntToString(p) + ")+1)/" + IntToString(p)
  }

  /** The period of a `lerp` value: `(mod(n-1,P)+1)/P` with the same positive P twice. */
  function ParsePeriod(s: string): Option<Interval>
  {
    match StripPrefix("(mod(n-1,", s)
    case None => None
    case Some(rest) =>
      match SplitOnce(rest, ')')
      case None => None
      case Some((num, tail)) =>
        if StripPrefix("+1)/", tail) == Some(num) then
          match ParseInt(num)
          case Some(p) => if p >= 1 then Some(p) else None
          case None => None
        else None
  }

  function ParseValue(s: string): Option<Value>
  {
    match StripPrefix("lerp(", s)
    case None =>
      (match ParseInt(s)
       case None => None
       case Some(c) => Some(Const(c)))
    case Some(rest) =>
      match StripSuffix(")", rest)
      case None => None
      case Some(args) =>
        match SplitOnce(args, ',')
        case None => None
        case Some((a, rest1)) =>
          match SplitOnce(rest1, ',')
          case None => None
          case Some((b, rest2)) =>
            match (ParseInt(a), ParseInt(b), ParsePeriod(rest2))
            case (Some(x), Some(y), Some(p)) => Some(Lerp(x, y, p))
            case _ => None
  }

  lemma PeriodRoundTrip(p: Interval)
    ensures ParsePeriod(PeriodText(p)) == Some(p)
  {
    var num := IntToString(p);
    var rest := num + [')'] + ("+1)/" + num);
    assert PeriodText(p) == "(mod(n-1," + rest;
    StripPrefixOf("(mod(n-1,", rest);
    NumeralExcludes(num, ')');
    SplitOnceOf(num, ')', "+1)/" + num);
    StripPrefixOf("+1)/", num);
    IntRoundTrip(p);
  }

  /** Every value is read back from its text. */
  lemma ValueRoundTrip(v: Value)
    ensures ParseValue(RenderValue(v)) == Some(v)
  {
    match v
    case Const(c) => ConstRoundTrip(c);
    case Lerp(a, b, p) => LerpRoundTrip(a, b, p);
  }

  lemma ConstRoundTrip(c: int)
    ensures ParseValue(RenderValue(Const(c))) == Some(Const(c))
  {
    var num := IntToString(c);
    assert num[0] != 'l';
    assert StripPrefix("lerp(", num).None?;
    IntRoundTrip(c);
  }

  lemma LerpRoundTrip(a: int, b: int, p: Interval)
    ensures ParseValue(RenderValue(Lerp(a, b, p))) == Some(Lerp(a, b, p))
  {
    var x, y, q := IntToString(a), IntToString(b), PeriodText(p);
    var rest1 := y + [','] + q;
    var args := x + [','] + rest1;
    Regroup6("lerp(", x, ",", y, q, ")");
    assert RenderValue(Lerp(a, b, p)) == "lerp(" + (args + ")");
    StripPrefixOf("lerp(", args + ")");
    StripSuffixOf(args, ")");
    NumeralExcludes(x, ',');
    NumeralExcludes(y, ',');
    SplitOnceOf(x, ',', rest1);
    SplitOnceOf(y, ',', q);
    IntRoundTrip(a);
    IntRoundTrip(b);
    PeriodRoundTrip(p);
  }

  // ---------------------------------------------------------------------
  // Clause lines.
  // ---------------------------------------------------------------------

  /** One line of the expression: `if(guard,st(0,value));`. */
  function RenderClause(c: Clause): (s: string)
    ensures '\n' !in s && s != []
  {
    "if(" + RenderGuard(c.guard) + ",st(0," + RenderValue(c.value) + "));"
  }

  function ParseClause(s: string): Option<Clause>
  {
    match StripPrefix("if(", s)
    case None => None
    case Some(rest) =>
      match StripSuffix("));", rest)
      case None => None
      case Some(inner) =>
        match SplitOnce(inner, 's')
        case None => None
        case Some((before, after)) =>
          match (StripSuffix(",", before), StripPrefix("t(0,", after))
          case (Some(g), Some(v)) =>
            (match (ParseGuard(g), ParseValue(v))
             case (Some(guard), Some(value)) => Some(Clause(guard, value))
             case _ => None)
          case _ => None
  }

  /** Every clause line is read back as the clause it was made from. */
  lemma ClauseRoundTrip(c: Clause)
    ensures ParseClause(RenderClause(c)) == Some(c)
  {
    var g, v := RenderGuard(c.guard), RenderValue(c.value);
    var inner := (g + ",") + ['s'] + ("t(0," + v);
    assert RenderClause(c) == "if(" + (inner + "));");
    StripPrefixOf("if(", inner + "));");
    StripSuffixOf(inner, "));");
    assert 's' !in g + ",";
    SplitOnceOf(g + ",", 's', "t(0," + v);
    StripSuffixOf(g, ",");
    StripPrefixOf("t(0,", v);
    GuardRoundTrip(c.guard);
    ValueRoundTrip(c.value);
  }

  // ---------------------------------------------------------------------
  // Lines of text.
  // ---------------------------------------------------------------------

  /** `lines.join("\n")`. */
  function Join(lines: seq<string>): (s: string)
  {
    if lines == [] then ""
    else if |lines| == 1 then lines[0]
    else lines[0] + "\n" + Join(lines[1..])
  }

  /** The lines of a text, split at every newline. */
  function Lines(s: string): (r: seq<string>)
    ensures |r| >= 1
    decreases |s|
  {
    match Find(s, '\n')
    case None => [s]
    case Some(k) => [s[..k]] + Lines(s[k + 1..])
  }

  lemma LinesCons(x: string, y: string)
    requires '\n' !in x
    ensures Lines(x + "\n" + y) == [x] + Lines(y)
  {
    SplitOnceOf(x, '\n', y);
    FindAfter(x, '\n', y);
  }

  lemma LinesSingle(x: string)
    requires '\n' !in x
    ensures Lines(x) == [x]
  {
  }

  predicate SingleLines(lines: seq<string>)
  {
    forall i :: 0 <= i < |lines| ==> '\n' !in lines[i]
  }

  /** What the lines of a join look like once something follows it: an empty join is one empty line. */
  function Shown(lines: seq<string>): seq<string>
  {
    if lines == [] then [""] else lines
  }

  /** Joining lines without newlines and splitting the text again gives the lines back. */
  lemma {:induction false} LinesOfJoin(lines: seq<string>, rest: string)
    requires SingleLines(lines)
    ensures Lines(Join(lines) + "\n" + rest) == Shown(lines) + Lines(rest)
    decreases |lines|
  {
    if lines == [] {
      LinesCons("", rest);
    } else if |lines| == 1 {
      LinesCons(lines[0], rest);
    } else {
      var tail := lines[1..];
      SingleLinesTail(lines);
      Regroup5(lines[0], "\n", Join(tail), "\n", rest);
      LinesCons(lines[0], Join(tail) + "\n" + rest);
      LinesOfJoin(tail, rest);
      Assoc([lines[0]], tail, Lines(rest));
      ConsTail(lines);
    }
  }

  lemma SingleLinesTail(lines: seq<string>)
    requires lines != [] && SingleLines(lines)
    ensures SingleLines(lines[1..])
  {
    forall i | 0 <= i < |lines| - 1 ensures '\n' !in lines[1..][i] {
      assert lines[1..][i] == lines[i + 1];
    }
  }

  // ---------------------------------------------------------------------
  // The whole script.
  // ---------------------------------------------------------------------

  function Header(tw: int, th: int): (s: string)
    ensures '\n' !in s
  {
    NumeralExcludes(IntToString(tw), '\n');
    NumeralExcludes(IntToString(th), '\n');
    "crop=" + IntToString(tw) + ":" + IntToString(th) + ":'"
  }

  function ClauseLines(cs: seq<Clause>): (lines: seq<string>)
    ensures |lines| == |cs| && SingleLines(lines)
    ensures forall i :: 0 <= i < |cs| ==> lines[i] == RenderClause(cs[i])
  {
    seq(|cs|, i requires 0 <= i < |cs| => RenderClause(cs[i]))
  }

  /** The two lines after the clauses: load slot 0, close the quote and give the y offset. */
  const Trailer: string := "ld(0)\n':0"

  /** The filter argument for a crop of `tw` by `th` whose x offset follows the clauses. */
  function RenderScript(tw: int, th: int, cs: seq<Clause>): (s: string)
  {
    Header(tw, th) + "\n" + Join(ClauseLines(cs)) + "\n" + Trailer
  }

  lemma TrailerLines()
    ensures Lines(Trailer) == ["ld(0)", "':0"]
  {
    assert Trailer == "ld(0)" + "\n" + "':0";
    LinesCons("ld(0)", "':0");
  }

  /**
    The script's lines: the crop header, one line per clause (a single empty
    line when there is none), `ld(0)` and the closing `':0`.
   */
  lemma ScriptLines(tw: int, th: int, cs: seq<Clause>)
    ensures Lines(RenderScript(tw, th, cs)) ==
              [Header(tw, th)] + Shown(ClauseLines(cs)) + ["ld(0)", "':0"]
  {
    var h, lines := Header(tw, th), ClauseLines(cs);
    var body := Join(lines) + "\n" + Trailer;
    Regroup5(h, "\n", Join(lines), "\n", Trailer);
    LinesCons(h, body);
    LinesOfJoin(lines, Trailer);
    TrailerLines();
    Assoc([h], Shown(lines), ["ld(0)", "':0"]);
  }

  function ParseHeader(s: string): Option<(int, int)>
  {
    match StripPrefix("crop=", s)
    case None => None
    case Some(rest) =>
      match SplitOnce(rest, ':')
      case None => None
      case Some((w, tail)) =>
        match StripSuffix(":'", tail)
        case None => None
        case Some(h) =>
          match (ParseInt(w), ParseInt(h))
          case (Some(x), Some(y)) => Some((x, y))
          case _ => None
  }

  lemma HeaderRoundTrip(tw: int, th: int)
    ensures ParseHeader(Header(tw, th)) == Some((tw, th))
  {
    var w, h := IntToString(tw), IntToString(th);
    var rest := w + [':'] + (h + ":'");
    assert Header(tw, th) == "crop=" + rest;
    StripPrefixOf("crop=", rest);
    NumeralExcludes(w, ':');
    SplitOnceOf(w, ':', h + ":'");
    StripSuffixOf(h, ":'");
    IntRoundTrip(tw);
    IntRoundTrip(th);
  }

  function ParseClauses(lines: seq<string>): Option<seq<Clause>>
  {
    if lines == [] then Some([])
    else
      match (ParseClause(lines[0]), ParseClauses(lines[1..]))
      case (Some(c), Some(cs)) => Some([c] + cs)
      case _ => None
  }

  lemma {:induction false} ClausesRoundTrip(cs: seq<Clause>)
    ensures ParseClauses(ClauseLines(cs)) == Some(cs)
  {
    if cs != [] {
      ClauseRoundTrip(cs[0]);
      ClauseLinesTail(cs);
      ClausesRoundTrip(cs[1..]);
      ConsTail(cs);
    }
  }

  lemma ClauseLinesTail(cs: seq<Clause>)
    requires cs != []
    ensures ClauseLines(cs)[1..] == ClauseLines(cs[1..])
  {
    var l, t := ClauseLines(cs), ClauseLines(cs[1..]);
    forall i | 0 <= i < |t| ensures l[1..][i] == t[i] {
      assert l[1..][i] == l[i + 1];
    }
  }

  /** The clause lines between the header and `ld(0)`; a single empty line stands for none. */
  function ParseBody(lines: seq<string>): Option<seq<Clause>>
  {
    if lines == [""] then Some([]) else ParseClauses(lines)
  }

  lemma BodyRoundTrip(cs: seq<Clause>)
    ensures ParseBody(Shown(ClauseLines(cs))) == Some(cs)
  {
    if cs != [] {
      assert ClauseLines(cs)[0] == RenderClause(cs[0]);
      ClausesRoundTrip(cs);
    }
  }

  /** Reads the target size and the clause list back from a filter argument. */
  function ParseScript(s: string): Option<(int, int, seq<Clause>)>
  {
    var lines := Lines(s);
    if |lines| < 4 || lines[|lines| - 2] != "ld(0)" || lines[|lines| - 1] != "':0" then None
    else
      match (ParseHeader(lines[0]), ParseBody(lines[1..|lines| - 2]))
      case (Some((w, h)), Some(cs)) => Some((w, h, cs))
      case _ => None
  }

  /** The script determines the crop size and every clause it was made from. */
  lemma ScriptRoundTrip(tw: int, th: int, cs: seq<Clause>)
    ensures ParseScript(RenderScript(tw, th, cs)) == Some((tw, th, cs))
  {
    ScriptLines(tw, th, cs);
    ParseScriptLines(RenderScript(tw, th, cs), tw, th, cs);
  }

  /** A text laid out in the script's lines is read back as its size and clauses. */
  lemma ParseScriptLines(s: string, tw: int, th: int, cs: seq<Clause>)
    requires Lines(s) == [Header(tw, th)] + Shown(ClauseLines(cs)) + ["ld(0)", "':0"]
    ensures ParseScript(s) == Some((tw, th, cs))
  {
    MiddleOf(Header(tw, th), Shown(ClauseLines(cs)), "ld(0)", "':0");
    HeaderRoundTrip(tw, th);
    BodyRoundTrip(cs);
  }

  lemma MiddleOf<T>(h: T, m: seq<T>, a: T, b: T)
    ensures var l := [h] + m + [a, b];
            && |l| == |m| + 3 && l[0] == h && l[1..|l| - 2] == m
            && l[|l| - 2] == a && l[|l| - 1] == b
  {
    var l := [h] + m + [a, b];
    assert l[1..|l| - 2] == m;
  }

  // ---------------------------------------------------------------------
  // From crops to the filter argument.
  // ---------------------------------------------------------------------

  function Offsets(crops: seq<CropTimeline.Crop>): (xs: seq<int>)
    ensures |xs| == |crops|
    ensures forall i :: 0 <= i < |crops| ==> xs[i] == crops[i].x
  {
    seq(|crops|, i requires 0 <= i < |crops| => crops[i].x)
  }

  /**
    The filter argument built after the capture: the crop size, and the
    clause list synthesised from the crops' x offsets. Reading it back gives
    that size and that list.
   */
  function Script(tw: int, th: int, crops: seq<CropTimeline.Crop>, f: Interval, interpolate: bool)
    : (r: Result<string, SynthError>)
    ensures r.Err? <==> interpolate && crops == []
    ensures r.Ok? ==> ParseScript(r.value) == Some((tw, th, FrameValues(Offsets(crops), f, interpolate).value))
  {
    match FrameValues(Offsets(crops), f, interpolate)
    case Err(e) => Err(e)
    case Ok(cs) =>
      ScriptRoundTrip(tw, th, cs);
      Ok(RenderScript(tw, th, cs))
  }
}
