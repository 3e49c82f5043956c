/** The DIMACS CNF and WCNF renderings of a `SatInput` (`toCNF`, `toWCNF`
    and the `append*` helpers of SatInput.java), and a reader of the two
    formats that gets the header and the clauses back. */
module Dimacs {
  import opened Wrappers
  import opened JavaInts
  import opened Decimal
  import opened Texts
  import opened SatInputs

  /** The constants of the solver interface. */
  const PCnf := "p cnf"
  const PWcnf := "p wcnf"
  const Space := ' '
  const Newline := '\n'

  /** The decimal renderings of the integers, in order. */
  function Render(xs: seq<int>): (r: seq<string>)
    ensures |r| == |xs|
    ensures forall i :: 0 <= i < |xs| ==> r[i] == IntToString(xs[i])
  {
    if xs == [] then [] else [IntToString(xs[0])] + Render(xs[1..])
  }

  /** A clause line without its newline: each literal followed by a space,
      then the end-of-clause marker. */
  function ClauseText(clause: seq<int>): string {
    Terminated(Render(clause), Space) + IntToString(EndOfClause)
  }

  /** `appendCNFClause` (lines 16-23). */
  function CnfClause(clause: seq<int>): string {
    ClauseText(clause) + [Newline]
  }

  /** `appendCNFLine` (lines 25-32). */
  function CnfLine(nbVars: int, nbClauses: int): string {
    PCnf + [Space] + IntToString(nbVars) + [Space] + IntToString(nbClauses) + [Newline]
  }

  /** `appendWCNFClause` (lines 34-38). */
  function WcnfClause(clause: seq<int>, weight: int): string {
    IntToString(weight) + [Space] + CnfClause(clause)
  }

  /** `appendWCNFLine` (lines 40-49). */
  function WcnfLine(nbVars: int, nbClauses: int, maxWeight: int): string {
    PWcnf + [Space] + IntToString(nbVars) + [Space] + IntToString(nbClauses) + [Space] + IntToString(maxWeight) + [Newline]
  }

  function CnfClauses(cs: seq<Literals>): string {
    if cs == [] then "" else CnfClause(cs[0]) + CnfClauses(cs[1..])
  }

  function HardClauses(cs: seq<Literals>, weight: int): string {
    if cs == [] then "" else WcnfClause(cs[0], weight) + HardClauses(cs[1..], weight)
  }

  /** One unit clause of weight 1 per literal to minimise, holding its
      negation in `int` arithmetic. */
  function SoftClauses(ls: seq<Int32>): string {
    if ls == [] then "" else WcnfClause([Negate(ls[0])], 1) + SoftClauses(ls[1..])
  }

  /** `toCNF` (lines 213-220). */
  function ToCnf(s: SatInput): string {
    CnfLine(s.lastId, |s.clauses|) + CnfClauses(s.clauses)
  }

  /** `toWCNF` (lines 234-244): the hard clauses carry `maxWeight`, and the
      header counts them together with the soft ones. */
  function ToWcnf(s: SatInput, maxWeight: Int32): string {
    WcnfLine(s.lastId, |s.clauses| + |s.minimize|, maxWeight)
      + HardClauses(s.clauses, maxWeight) + SoftClauses(s.minimize)
  }

  /** The contents of a CNF text. */
  datatype Cnf = Cnf(nbVars: int, nbClauses: int, clauses: seq<seq<int>>)

  /** The contents of a WCNF text: each clause with its weight. */
  datatype Wcnf = Wcnf(nbVars: int, nbClauses: int, top: int, clauses: seq<(int, seq<int>)>)

  function ParseInts(words: seq<string>): (r: Option<seq<int>>)
    ensures r.Some? ==> |r.value| == |words|
  {
    if words == [] then Some([])
    else match (ParseInt(words[0]), ParseInts(words[1..]))
      case (Some(x), Some(xs)) => Some([x] + xs)
      case _ => None
  }

  /** The literals of a clause line: integers, the last of them the marker. */
  function ParseClause(line: string): Option<seq<int>> {
    var words := Split(line, Space);
    if words[|words| - 1] == IntToString(EndOfClause) then ParseInts(words[..|words| - 1]) else None
  }

  function ParseClauses(lines: seq<string>): Option<seq<seq<int>>> {
    if lines == [] then Some([])
    else match (ParseClause(lines[0]), ParseClauses(lines[1..]))
      case (Some(c), Some(cs)) => Some([c] + cs)
      case _ => None
  }

  /** A weighted clause line: the weight, then a clause. */
  function ParseWeighted(line: string): Option<(int, seq<int>)> {
    var words := Split(line, Space);
    if |words| >= 2 && words[|words| - 1] == IntToString(EndOfClause) then
      match (ParseInt(words[0]), ParseInts(words[1..|words| - 1]))
      case (Some(w), Some(c)) => Some((w, c))
      case _ => None
    else None
  }

  function ParseWeightedClauses(lines: seq<string>): Option<seq<(int, seq<int>)>> {
    if lines == [] then Some([])
    else match (ParseWeighted(lines[0]), ParseWeightedClauses(lines[1..]))
      case (Some(c), Some(cs)) => Some([c] + cs)
      case _ => None
  }

  /** Reads a CNF text: a problem line `p cnf <vars> <clauses>`, clause
      lines, and a newline at the end. */
  function ParseCnf(text: string): Option<Cnf> {
    var lines := Split(text, Newline);
    var header := Split(lines[0], Space);
    if |lines| < 2 || lines[|lines| - 1] != "" || |header| != 4 || header[0] != "p" || header[1] != "cnf" then None
    else match (ParseInt(header[2]), ParseInt(header[3]), ParseClauses(lines[1..|lines| - 1]))
      case (Some(v), Some(n), Some(cs)) => Some(Cnf(v, n, cs))
      case _ => None
  }

  /** Reads a WCNF text: a problem line `p wcnf <vars> <clauses> <top>`,
      weighted clause lines, and a newline at the end. */
  function ParseWcnf(text: string): Option<Wcnf> {
    var lines := Split(text, Newline);
    var header := Split(lines[0], Space);
    if |lines| < 2 || lines[|lines| - 1] != "" || |header| != 5 || header[0] != "p" || header[1] != "wcnf" then None
    else match (ParseInt(header[2]), ParseInt(header[3]), ParseInt(header[4]), ParseWeightedClauses(lines[1..|lines| - 1]))
      case (Some(v), Some(n), Some(t), Some(cs)) => Some(Wcnf(v, n, t, cs))
      case _ => None
  }

  // The round trips, line by line.

  lemma {:induction false} ParseIntsRoundTrip(xs: seq<int>)
    ensures ParseInts(Render(xs)) == Some(xs)
  {
    if xs != [] {
      IntRoundTrip(xs[0]);
      assert Render(xs)[1..] == Render(xs[1..]);
      ParseIntsRoundTrip(xs[1..]);
      assert [xs[0]] + xs[1..] == xs;
    }
  }

  lemma RenderFree(xs: seq<int>, c: char)
    requires c == Space || c == Newline
    ensures Free(Render(xs), c)
  {
  }

  lemma {:induction false} TerminatedFree(pieces: seq<string>, sep: char, c: char)
    requires c != sep && Free(pieces, c)
    ensures c !in Terminated(pieces, sep)
  {
    if pieces != [] {
      assert Free(pieces[1..], c);
      TerminatedFree(pieces[1..], sep, c);
    }
  }

  lemma TerminatedCons(x: string, rest: seq<string>, sep: char)
    ensures Terminated([x] + rest, sep) == x + [sep] + Terminated(rest, sep)
  {
    assert ([x] + rest)[1..] == rest;
  }

  lemma {:induction false} TerminatedAppend(a: seq<string>, b: seq<string>, sep: char)
    ensures Terminated(a + b, sep) == Terminated(a, sep) + Terminated(b, sep)
  {
    if a != [] {
      assert a + b == [a[0]] + (a[1..] + b);
      TerminatedCons(a[0], a[1..] + b, sep);
      TerminatedAppend(a[1..], b, sep);
    } else {
      assert a + b == b;
    }
  }

  /** A clause line splits into the renderings of its literals and the marker. */
  lemma ClauseWords(clause: seq<int>)
    ensures Split(ClauseText(clause), Space) == Render(clause) + [IntToString(EndOfClause)]
    ensures Newline !in ClauseText(clause)
  {
    RenderFree(clause, Space);
    SplitTerminated(Render(clause), IntToString(EndOfClause), Space);
    RenderFree(clause, Newline);
    TerminatedFree(Render(clause), Space, Newline);
  }

  lemma ParseClauseRoundTrip(clause: seq<int>)
    ensures ParseClause(ClauseText(clause)) == Some(clause)
  {
    ClauseWords(clause);
    var words := Split(ClauseText(clause), Space);
    assert words[..|words| - 1] == Render(clause);
    ParseIntsRoundTrip(clause);
  }

  /** A weighted clause line without its newline. */
  function WeightedText(clause: seq<int>, weight: int): string {
    IntToString(weight) + [Space] + ClauseText(clause)
  }

  lemma ParseWeightedRoundTrip(clause: seq<int>, weight: int)
    ensures ParseWeighted(WeightedText(clause, weight)) == Some((weight, clause))
    ensures Newline !in WeightedText(clause, weight)
  {
    ClauseWords(clause);
    var w := IntToString(weight);
    SplitPiece(w, ClauseText(clause), Space);
    var words := Split(WeightedText(clause, weight), Space);
    assert words == [w] + Render(clause) + [IntToString(EndOfClause)];
    assert words[1..|words| - 1] == Render(clause);
    IntRoundTrip(weight);
    ParseIntsRoundTrip(clause);
  }

  /** The clause lines of a CNF text, without their newlines. */
  function ClauseLines(cs: seq<Literals>): (r: seq<string>)
    ensures |r| == |cs|
    ensures forall i :: 0 <= i < |cs| ==> r[i] == ClauseText(cs[i])
  {
    if cs == [] then [] else [ClauseText(cs[0])] + ClauseLines(cs[1..])
  }

  lemma {:induction false} CnfClausesLines(cs: seq<Literals>)
    ensures CnfClauses(cs) == Terminated(ClauseLines(cs), Newline)
  {
    if cs != [] {
      CnfClausesLines(cs[1..]);
      TerminatedCons(ClauseText(cs[0]), ClauseLines(cs[1..]), Newline);
    }
  }

  lemma {:induction false} ParseClausesRoundTrip(cs: seq<Literals>)
    ensures ParseClauses(ClauseLines(cs)) == Some(cs)
  {
    if cs != [] {
      assert ClauseLines(cs)[1..] == ClauseLines(cs[1..]);
      ParseClauseRoundTrip(cs[0]);
      ParseClausesRoundTrip(cs[1..]);
      assert [cs[0]] + cs[1..] == cs;
    }
  }

  lemma ClauseLinesFree(cs: seq<Literals>)
    ensures Free(ClauseLines(cs), Newline)
  {
    forall i | 0 <= i < |cs| ensures Newline !in ClauseLines(cs)[i] {
      ClauseWords(cs[i]);
    }
  }

  /** The hard clause lines of a WCNF text. */
  function HardLines(cs: seq<Literals>, weight: int): (r: seq<string>)
    ensures |r| == |cs|
    ensures forall i :: 0 <= i < |cs| ==> r[i] == WeightedText(cs[i], weight)
  {
    if cs == [] then [] else [WeightedText(cs[0], weight)] + HardLines(cs[1..], weight)
  }

  /** The soft clause lines of a WCNF text. */
  function SoftLines(ls: seq<Int32>): (r: seq<string>)
    ensures |r| == |ls|
    ensures forall i :: 0 <= i < |ls| ==> r[i] == WeightedText([Negate(ls[i])], 1)
  {
    if ls == [] then [] else [WeightedText([Negate(ls[0])], 1)] + SoftLines(ls[1..])
  }

  /** The weighted clauses of the hard lines. */
  function Hard(cs: seq<Literals>, weight: int): (r: seq<(int, seq<int>)>)
    ensures |r| == |cs|
    ensures forall i :: 0 <= i < |cs| ==> r[i] == (weight, cs[i])
  {
    seq(|cs|, i requires 0 <= i < |cs| => (weight, cs[i]))
  }

  /** The weighted clauses of the soft lines. */
  function Soft(ls: seq<Int32>): (r: seq<(int, seq<int>)>)
    ensures |r| == |ls|
    ensures forall i :: 0 <= i < |ls| ==> r[i] == (1, [Negate(ls[i]) as int])
  {
    seq(|ls|, i requires 0 <= i < |ls| => (1, [Negate(ls[i]) as int]))
  }

  lemma {:induction false} HardClausesLines(cs: seq<Literals>, weight: int)
    ensures HardClauses(cs, weight) == Terminated(HardLines(cs, weight), Newline)
  {
    if cs != [] {
      HardClausesLines(cs[1..], weight);
      TerminatedCons(WeightedText(cs[0], weight), HardLines(cs[1..], weight), Newline);
    }
  }

  lemma {:induction false} SoftClausesLines(ls: seq<Int32>)
    ensures SoftClauses(ls) == Terminated(SoftLines(ls), Newline)
  {
    if ls != [] {
      SoftClausesLines(ls[1..]);
      TerminatedCons(WeightedText([Negate(ls[0])], 1), SoftLines(ls[1..]), Newline);
    }
  }

  lemma {:induction false} ParseHardRoundTrip(cs: seq<Literals>, weight: int)
    ensures ParseWeightedClauses(HardLines(cs, weight)) == Some(Hard(cs, weight))
  {
    if cs != [] {
      assert HardLines(cs, weight)[1..] == HardLines(cs[1..], weight);
      ParseWeightedRoundTrip(cs[0], weight);
      ParseHardRoundTrip(cs[1..], weight);
      assert [(weight, cs[0])] + Hard(cs[1..], weight) == Hard(cs, weight);
    }
  }

  lemma {:induction false} ParseSoftRoundTrip(ls: seq<Int32>)
    ensures ParseWeightedClauses(SoftLines(ls)) == Some(Soft(ls))
  {
    if ls != [] {
      assert SoftLines(ls)[1..] == SoftLines(ls[1..]);
      ParseWeightedRoundTrip([Negate(ls[0])], 1);
      ParseSoftRoundTrip(ls[1..]);
      assert [(1, [Negate(ls[0]) as int])] + Soft(ls[1..]) == Soft(ls);
    }
  }

  lemma WeightedLinesFree(s: SatInput, weight: int)
    ensures Free(HardLines(s.clauses, weight) + SoftLines(s.minimize), Newline)
  {
    var lines := HardLines(s.clauses, weight) + SoftLines(s.minimize);
    forall i | 0 <= i < |lines| ensures Newline !in lines[i] {
      if i < |s.clauses| {
        ParseWeightedRoundTrip(s.clauses[i], weight);
      } else {
        ParseWeightedRoundTrip([Negate(s.minimize[i - |s.clauses|])], 1);
      }
    }
  }

  lemma {:induction false} ParseWeightedAppend(a: seq<string>, b: seq<string>)
    requires ParseWeightedClauses(a).Some? && ParseWeightedClauses(b).Some?
    ensures ParseWeightedClauses(a + b) == Some(ParseWeightedClauses(a).value + ParseWeightedClauses(b).value)
  {
    var y := ParseWeightedClauses(b).value;
    if a != [] {
      assert (a + b)[1..] == a[1..] + b;
      assert (a + b)[0] == a[0];
      var c := ParseWeighted(a[0]).value;
      var x := ParseWeightedClauses(a[1..]).value;
      ParseWeightedAppend(a[1..], b);
      assert [c] + (x + y) == ([c] + x) + y;
    } else {
      assert a + b == b;
      assert [] + y == y;
    }
  }

  /** The words of a problem line, and the text it reads back from. */
  lemma HeaderWords(words: seq<string>, last: string, text: string)
    requires text == Terminated(words, Space) + last
    requires Free(words, Space) && Space !in last
    requires Free(words, Newline) && Newline !in last
    ensures Split(text, Space) == words + [last]
    ensures Newline !in text
  {
    SplitTerminated(words, last, Space);
    TerminatedFree(words, Space, Newline);
  }

  /** A text of a header line and body lines, each ending in a newline,
      splits into them and a last empty piece. */
  lemma Layout(text: string, header: string, body: seq<string>)
    requires text == header + [Newline] + Terminated(body, Newline)
    requires Newline !in header && Free(body, Newline)
    ensures var lines := Split(text, Newline);
            |lines| >= 2 && lines[0] == header && lines[1..|lines| - 1] == body && lines[|lines| - 1] == ""
  {
    TerminatedCons(header, body, Newline);
    assert Free([header] + body, Newline);
    assert text == Terminated([header] + body, Newline) + "";
    SplitTerminated([header] + body, "", Newline);
  }

  /** A CNF problem line without its newline. */
  function CnfHeaderText(v: int, n: int): string {
    PCnf + [Space] + IntToString(v) + [Space] + IntToString(n)
  }

  /** A WCNF problem line without its newline. */
  function WcnfHeaderText(v: int, n: int, t: int): string {
    PWcnf + [Space] + IntToString(v) + [Space] + IntToString(n) + [Space] + IntToString(t)
  }

  /** One more word on a line of space-separated words. */
  lemma Step(words: seq<string>, last: string, x: string)
    ensures Terminated(words, Space) + last + [Space] + x == Terminated(words + [last], Space) + x
  {
    TerminatedAppend(words, [last], Space);
    TerminatedCons(last, [], Space);
  }

  lemma CnfHeader(v: int, n: int)
    ensures var header := CnfHeaderText(v, n);
            && CnfLine(v, n) == header + [Newline] && Newline !in header
            && Split(header, Space) == ["p", "cnf", IntToString(v), IntToString(n)]
  {
    var vs, ns := IntToString(v), IntToString(n);
    TerminatedCons("p", [], Space);
    assert PCnf == Terminated(["p"], Space) + "cnf";
    Step(["p"], "cnf", vs);
    Step(["p", "cnf"], vs, ns);
    HeaderWords(["p", "cnf", vs], ns, CnfHeaderText(v, n));
  }

  lemma WcnfHeader(v: int, n: int, t: int)
    ensures var header := WcnfHeaderText(v, n, t);
            && WcnfLine(v, n, t) == header + [Newline] && Newline !in header
            && Split(header, Space) == ["p", "wcnf", IntToString(v), IntToString(n), IntToString(t)]
  {
    var vs, ns, ts := IntToString(v), IntToString(n), IntToString(t);
    TerminatedCons("p", [], Space);
    assert PWcnf == Terminated(["p"], Space) + "wcnf";
    Step(["p"], "wcnf", vs);
    Step(["p", "wcnf"], vs, ns);
    Step(["p", "wcnf", vs], ns, ts);
    assert ["p"] + ["wcnf"] == ["p", "wcnf"];
    assert ["p", "wcnf"] + [vs] == ["p", "wcnf", vs];
    assert ["p", "wcnf", vs] + [ns] == ["p", "wcnf", vs, ns];
    HeaderWords(["p", "wcnf", vs, ns], ts, WcnfHeaderText(v, n, t));
  }

  /** Reading back `toCNF` gives its problem line and its clauses. */
  lemma CnfRoundTrip(s: SatInput)
    ensures ParseCnf(ToCnf(s)) == Some(Cnf(s.lastId, |s.clauses|, s.clauses))
  {
    CnfHeader(s.lastId, |s.clauses|);
    var header := CnfHeaderText(s.lastId, |s.clauses|);
    CnfClausesLines(s.clauses);
    ClauseLinesFree(s.clauses);
    Layout(ToCnf(s), header, ClauseLines(s.clauses));
    ParseClausesRoundTrip(s.clauses);
    IntRoundTrip(s.lastId);
    IntRoundTrip(|s.clauses|);
  }

  /** The lines of a WCNF body read back as the hard clauses, then the soft ones. */
  lemma ParseBodyRoundTrip(s: SatInput, maxWeight: int)
    ensures ParseWeightedClauses(HardLines(s.clauses, maxWeight) + SoftLines(s.minimize))
            == Some(Hard(s.clauses, maxWeight) + Soft(s.minimize))
  {
    ParseHardRoundTrip(s.clauses, maxWeight);
    ParseSoftRoundTrip(s.minimize);
    ParseWeightedAppend(HardLines(s.clauses, maxWeight), SoftLines(s.minimize));
  }

  /** A text laid out as a WCNF problem line and body lines reads back as
      their contents. */
  lemma ParseWcnfOf(text: string, header: string, body: seq<string>, v: int, n: int, t: int, cs: seq<(int, seq<int>)>)
    requires text == header + [Newline] + Terminated(body, Newline)
    requires Newline !in header && Free(body, Newline)
    requires Split(header, Space) == ["p", "wcnf", IntToString(v), IntToString(n), IntToString(t)]
    requires ParseWeightedClauses(body) == Some(cs)
    ensures ParseWcnf(text) == Some(Wcnf(v, n, t, cs))
  {
    Layout(text, header, body);
    IntRoundTrip(v);
    IntRoundTrip(n);
    IntRoundTrip(t);
  }

  /** `toWCNF` is its problem line and its body lines, each ending in a newline. */
  lemma WcnfLayout(s: SatInput, maxWeight: Int32)
    ensures ToWcnf(s, maxWeight)
            == WcnfHeaderText(s.lastId, |s.clauses| + |s.minimize|, maxWeight) + [Newline]
               + Terminated(HardLines(s.clauses, maxWeight) + SoftLines(s.minimize), Newline)
  {
    WcnfHeader(s.lastId, |s.clauses| + |s.minimize|, maxWeight);
    HardClausesLines(s.clauses, maxWeight);
    SoftClausesLines(s.minimize);
    TerminatedAppend(HardLines(s.clauses, maxWeight), SoftLines(s.minimize), Newline);
  }

  /** Reading back `toWCNF` gives its problem line, the hard clauses with
      `maxWeight` and the soft unit clauses with weight 1. */
  lemma WcnfRoundTrip(s: SatInput, maxWeight: Int32)
    ensures ParseWcnf(ToWcnf(s, maxWeight))
            == Some(Wcnf(s.lastId, |s.clauses| + |s.minimize|, maxWeight, Hard(s.clauses, maxWeight) + Soft(s.minimize)))
  {
    var n := |s.clauses| + |s.minimize|;
    WcnfHeader(s.lastId, n, maxWeight);
    var header := WcnfHeaderText(s.lastId, n, maxWeight);
    var hard, soft := HardLines(s.clauses, maxWeight), SoftLines(s.minimize);
    WcnfLayout(s, maxWeight);
    WeightedLinesFree(s, maxWeight);
    ParseBodyRoundTrip(s, maxWeight);
    ParseWcnfOf(ToWcnf(s, maxWeight), header, hard + soft, s.lastId, n, maxWeight, Hard(s.clauses, maxWeight) + Soft(s.minimize));
  }
}
