/** The examples of the tool's usage text, stated on the model: the patterns `*.www.fint.me`
    and `fin?.me`, the names they match and the names they do not, and the verdict of the
    compiled listing on a packet carrying one of those names. */
module Usage {
  import opened Bits
  import opened Labels
  import opened Merge
  import opened Bpf
  import opened Semantics
  import opened Compiler
  import opened Layout
  import opened Theorem
  import opened Emit

  /** The wire octets of `www.fint.me.`: the labels www, fint and me, then the root label. */
  function WwwFintMe(): seq<WireByte>
  {
    Encode("www") + Encode("fint") + Encode("me") + Encode([])
  }

  /** The wire octets of `fin?.me.`, whose '?' stands for any one octet. */
  function FinAnyMe(): seq<WireByte>
  {
    Encode("fin?") + Encode("me") + Encode([])
  }

  /** The steps of `*.www.fint.me`: skip one label, then compare www.fint.me and the root. */
  function StarSteps(): seq<Step>
  {
    [Skip, Run(WwwFintMe())]
  }

  /** The steps of `fin?.me`: one run, a single comparison of the whole name. */
  function FinSteps(): seq<Step>
  {
    [Run(FinAnyMe())]
  }

  /** The labels of `*.www.fint.me`: the wildcard, three literal labels and the root label. */
  lemma StarParts(d: seq<Octet>)
    requires d == "*.www.fint.me"
    ensures Parts(d) == ["*", "www", "fint", "me", []]
  {
    var parts: seq<seq<Octet>> := ["*", "www", "fint", "me"];
    assert Labels.Join(parts) == d;
    PartsOfPlain(parts);
  }

  /** A domain whose labels are those of `*.www.fint.me` has a wildcard token, then the
      encodings of the other labels. */
  lemma StarTokens(d: seq<Octet>)
    requires Parts(d) == ["*", "www", "fint", "me", []]
    ensures Tokenize(d)
      == Ok([Star, Literal(Encode("www")), Literal(Encode("fint")), Literal(Encode("me")), Literal(Encode([]))])
  {
    assert Tokenize(d).Ok? by {
      TokenizeFails(d);
    }
    var ts := Tokenize(d).value;
    assert |ts| == 5 && ts[0] == Star && ts[1] == Literal(Encode("www")) && ts[2] == Literal(Encode("fint"))
        && ts[3] == Literal(Encode("me")) && ts[4] == Literal(Encode([])) by {
      TokenizeShape(d);
    }
    assert ts == [Star, Literal(Encode("www")), Literal(Encode("fint")), Literal(Encode("me")), Literal(Encode([]))];
  }

  /** The argument `*.www.fint.me` becomes a wildcard step, then one run of the rest. */
  lemma StarPattern(d: seq<Octet>)
    requires d == "*.www.fint.me"
    ensures PatternOf(d) == Ok(StarSteps())
  {
    StarParts(d);
    StarPatternOf(d);
  }

  lemma StarPatternOf(d: seq<Octet>)
    requires Parts(d) == ["*", "www", "fint", "me", []]
    ensures PatternOf(d) == Ok(StarSteps())
  {
    var rest := [Literal(Encode("www")), Literal(Encode("fint")), Literal(Encode("me")), Literal(Encode([]))];
    var ts := [Star] + rest;
    StarRun();
    assert Merge.Merge(ts) == StarSteps() by {
      assert ts[0] == Star && ts[1..] == rest;
    }
    StarTokens(d);
  }

  /** The literal labels after the wildcard of `*.www.fint.me` merge into one run. */
  lemma StarRun()
    ensures Merge.Merge([Literal(Encode("www")), Literal(Encode("fint")), Literal(Encode("me")), Literal(Encode([]))])
      == [Run(WwwFintMe())]
  {
    var rest := [Literal(Encode("www")), Literal(Encode("fint")), Literal(Encode("me")), Literal(Encode([]))];
    MergeLiterals(rest);
    assert Concat(rest) == WwwFintMe();
  }

  /** The labels of `fin?.me`: two literal labels and the root label. */
  lemma FinParts(d: seq<Octet>)
    requires d == "fin?.me"
    ensures Parts(d) == ["fin?", "me", []]
  {
    var parts: seq<seq<Octet>> := ["fin?", "me"];
    assert Labels.Join(parts) == d;
    PartsOfPlain(parts);
  }

  /** A domain whose labels are those of `fin?.me` has the encodings of its labels as tokens,
      '?' a character like any other. */
  lemma FinTokens(d: seq<Octet>)
    requires Parts(d) == ["fin?", "me", []]
    ensures Tokenize(d) == Ok([Literal(Encode("fin?")), Literal(Encode("me")), Literal(Encode([]))])
  {
    assert Tokenize(d).Ok? by {
      TokenizeFails(d);
    }
    var ts := Tokenize(d).value;
    assert |ts| == 3 && ts[0] == Literal(Encode("fin?")) && ts[1] == Literal(Encode("me"))
        && ts[2] == Literal(Encode([])) by {
      TokenizeShape(d);
    }
    assert ts == [Literal(Encode("fin?")), Literal(Encode("me")), Literal(Encode([]))];
  }

  /** The labels of `fin?.me` merge into one run. */
  lemma FinRun()
    ensures Merge.Merge([Literal(Encode("fin?")), Literal(Encode("me")), Literal(Encode([]))]) == FinSteps()
  {
    var lits := [Literal(Encode("fin?")), Literal(Encode("me")), Literal(Encode([]))];
    MergeLiterals(lits);
    assert Concat(lits) == FinAnyMe();
  }

  /** The argument `fin?.me` becomes a single run: '?' is a character of a literal label. */
  lemma FinPattern(d: seq<Octet>)
    requires d == "fin?.me"
    ensures PatternOf(d) == Ok(FinSteps())
  {
    FinParts(d);
    FinTokens(d);
    FinRun();
  }

  /** A run matches a packet that carries its own octets, whatever follows them. */
  lemma RunMatchesItself(run: seq<WireByte>, ignoreCase: bool, rest: seq<byte>)
    ensures Attempt([Run(run)], ignoreCase, Values(run) + rest, 0) == Match
  {
    var pkt := Values(run) + rest;
    assert RunFrom(run, ignoreCase, pkt, 0, 0) == Match by {
      RunAgreesWithItself(run, ignoreCase, rest);
      RunInside(run, ignoreCase, pkt, 0, 0);
    }
    assert [Run(run)][1..] == [];
  }

  lemma RunAgreesWithItself(run: seq<WireByte>, ignoreCase: bool, rest: seq<byte>)
    ensures |Values(run) + rest| >= |run|
    ensures forall i :: 0 <= i < |run| ==> Agrees(run[i], ignoreCase, (Values(run) + rest)[0 + i])
  {
    var pkt := Values(run) + rest;
    forall i | 0 <= i < |run|
      ensures Agrees(run[i], ignoreCase, pkt[0 + i])
    {
      assert pkt[i] == run[i].value;
    }
  }

  /** `*.www.fint.me` matches a name of one label followed by www.fint.me, blah.www.fint.me
      for one, whatever the case switch says. */
  lemma StarMatchesOneLabel(part: seq<Octet>, ignoreCase: bool, rest: seq<byte>)
    requires |part| < 256
    ensures Attempt(StarSteps(), ignoreCase, Values(Encode(part)) + Values(WwwFintMe()) + rest, 0) == Match
  {
    var head := Values(Encode(part));
    var name := Values(WwwFintMe()) + rest;
    assert head + Values(WwwFintMe()) + rest == head + name;
    EncodeDecode(part, []);
    assert (head + name)[0] == |part|;
    assert StarSteps()[1..] == [Run(WwwFintMe())];
    AttemptShift([Run(WwwFintMe())], ignoreCase, head, name, 0);
    RunMatchesItself(WwwFintMe(), ignoreCase, rest);
  }

  /** `*.www.fint.me` does not match www.fint.me itself: the wildcard passes over www, and
      the length octet of fint then stands where the pattern has that of www. */
  lemma StarRejectsBareName(ignoreCase: bool, rest: seq<byte>)
    ensures Attempt(StarSteps(), ignoreCase, Values(WwwFintMe()) + rest, 0) == NoMatch
  {
    var run := WwwFintMe();
    var pkt := Values(run) + rest;
    assert |run| == 13 && run[0] == WireByte(false, 3) && run[4] == WireByte(false, 4);
    assert pkt[0] == 3 && pkt[4] == 4;
    assert !Agrees(run[0], ignoreCase, pkt[4 + 0]);
    assert ChunkMatch(run, ignoreCase, pkt, 4, 0, 4) == NoMatch;
    assert RunFrom(run, ignoreCase, pkt, 4, 0) == NoMatch;
    assert StarSteps()[1..] == [Run(run)];
  }

  /** `*.www.fint.me` does not match a name of two labels followed by www.fint.me, such as
      blah.blah.www.fint.me: the wildcard passes over one label only. */
  lemma StarRejectsTwoLabels(first: seq<Octet>, second: seq<Octet>, ignoreCase: bool, rest: seq<byte>)
    requires |first| < 256 && |second| < 256
    ensures Attempt(StarSteps(), ignoreCase,
      Values(Encode(first)) + Values(Encode(second)) + Values(WwwFintMe()) + rest, 0) == NoMatch
  {
    var run := WwwFintMe();
    var head := Values(Encode(first));
    var name := Values(Encode(second)) + Values(run) + rest;
    assert head + Values(Encode(second)) + Values(run) + rest == head + name;
    EncodeDecode(first, []);
    EncodeDecode(second, []);
    assert (head + name)[0] == |first|;
    assert StarSteps()[1..] == [Run(run)];
    AttemptShift([Run(run)], ignoreCase, head, name, 0);
    assert |run| == 13 && run[0] == WireByte(false, 3) && run[4] == WireByte(false, 4);
    RunInside(run, ignoreCase, name, 0, 0);
    if |second| != 3 {
      assert name[0] == |second|;
      assert !Agrees(run[0], ignoreCase, name[0 + 0]);
    } else {
      assert name[4] == Values(run)[0] == 3;
      assert !Agrees(run[4], ignoreCase, name[0 + 4]);
    }
  }

  /** `fin?.me` matches fin followed by any one octet, then .me: finT.me and finX.me, say. */
  lemma FinMatches(c: Octet, ignoreCase: bool, rest: seq<byte>)
    ensures Attempt(FinSteps(), ignoreCase, Values(Encode("fin" + [c]) + Encode("me") + Encode([])) + rest, 0) == Match
  {
    var run := FinAnyMe();
    var pkt := Values(Encode("fin" + [c]) + Encode("me") + Encode([])) + rest;
    assert |run| == 9 && run[4] == WireByte(true, QUESTION);
    forall i | 0 <= i < |run|
      ensures Agrees(run[i], ignoreCase, pkt[0 + i])
    {
      if i != 4 {
        assert pkt[i] == run[i].value;
      }
    }
    RunInside(run, ignoreCase, pkt, 0, 0);
    assert FinSteps()[1..] == [];
  }

  /** `fin?.me` does not match a name whose first label is not four octets long, such as
      fin.me, finXX.me or www.finX.me: the first length octets differ; a packet that ends
      before the first four octets of the name aborts instead. */
  lemma FinRejectsLength(part: seq<Octet>, ignoreCase: bool, rest: seq<byte>)
    requires |part| < 256 && |part| != 4
    ensures Attempt(FinSteps(), ignoreCase, Values(Encode(part)) + rest, 0)
      == (if 1 + |part| + |rest| < 4 then OutOfBounds else NoMatch)
  {
    var run := FinAnyMe();
    var pkt := Values(Encode(part)) + rest;
    EncodeDecode(part, []);
    assert pkt[0] == |part|;
    assert |run| == 9 && run[0] == WireByte(false, 4);
    if 4 <= |pkt| {
      assert !Agrees(run[0], ignoreCase, pkt[0 + 0]);
    }
    assert RunFrom(run, ignoreCase, pkt, 0, 0) == ChunkMatch(run, ignoreCase, pkt, 0, 0, 4);
  }

  /** `fin?.me` does not match fiXX.me, in either case: the fourth octet differs from n and
      from N. */
  lemma FinRejectsFiXX(ignoreCase: bool, rest: seq<byte>)
    ensures Attempt(FinSteps(), ignoreCase, Values(Encode("fiXX") + Encode("me") + Encode([])) + rest, 0) == NoMatch
  {
    var run := FinAnyMe();
    var pkt := Values(Encode("fiXX") + Encode("me") + Encode([])) + rest;
    assert |run| == 9 && run[3] == WireByte(true, 'n' as int);
    assert pkt[3] == 'X' as int;
    assert !Agrees(run[3], ignoreCase, pkt[0 + 3]);
    assert RunFrom(run, ignoreCase, pkt, 0, 0) == ChunkMatch(run, ignoreCase, pkt, 0, 0, 4);
  }

  /** The usage text's argument list `*.www.fint.me` parses into the one pattern StarSteps. */
  lemma StarParse(d: seq<Octet>)
    requires d == "*.www.fint.me"
    ensures Parse([d]) == Ok([StarSteps()])
  {
    StarPattern(d);
    ParseOne(d);
  }

  lemma ParseOne(d: seq<Octet>)
    requires PatternOf(d).Ok?
    ensures Parse([d]) == Ok([PatternOf(d).value])
  {
    CollectMeaning(PatternOf, [d]);
    assert [d][0] == d;
    assert Parse([d]).value == [PatternOf(d).value];
  }

  /** The listing of one pattern, on an IPv6 packet whose question name starts after the
      headers in head: the headers play no part, and the verdict of the pattern on the name
      alone decides what the listing returns. */
  lemma FilterOne(steps: seq<Step>, o: Options, a: u32, x: u32, m0: u32, head: seq<byte>, name: seq<byte>)
    requires o.inet6 && |head| == o.l3Offset + 60
    requires |head| + |name| + 256 <= WORD
    ensures Exec(Program([steps], o), 0, Regs(a, x, m0), head + name)
      == match Attempt(steps, o.ignoreCase, name, 0)
         case Match => Returned(AcceptCode(o))
         case NoMatch => Returned(RejectCode(o))
         case OutOfBounds => Aborted
  {
    FilterCorrect([steps], o, a, x, m0, head + name);
    FilterOneVerdict(steps, o, head, name);
  }

  lemma FilterOneVerdict(steps: seq<Step>, o: Options, head: seq<byte>, name: seq<byte>)
    requires o.inet6 && |head| == o.l3Offset + 60 && |head| < WORD
    ensures Filter([steps], o, head + name)
      == match Attempt(steps, o.ignoreCase, name, 0)
         case Match => Returned(AcceptCode(o))
         case NoMatch => Returned(RejectCode(o))
         case OutOfBounds => Aborted
  {
    var pkt := head + name;
    assert StartOffset(o, pkt) == Some(|head| + 0);
    assert TryFrom([steps], 1, o, pkt, |head|) == Returned(RejectCode(o));
    AttemptShift(steps, o.ignoreCase, head, name, 0);
  }

  /** The listing compiled from `*.www.fint.me` with -6 accepts an IPv6 packet asking for
      a name of one label followed by www.fint.me. */
  lemma StarFilterAccepts(o: Options, a: u32, x: u32, m0: u32, head: seq<byte>, part: seq<Octet>, rest: seq<byte>)
    requires o.inet6 && |head| == o.l3Offset + 60
    requires |part| < 256 && |head| + |part| + 14 + |rest| + 256 <= WORD
    ensures Exec(Program([StarSteps()], o), 0, Regs(a, x, m0), head + Values(Encode(part)) + Values(WwwFintMe()) + rest)
      == Returned(AcceptCode(o))
  {
    var name := Values(Encode(part)) + Values(WwwFintMe()) + rest;
    assert head + Values(Encode(part)) + Values(WwwFintMe()) + rest == head + name;
    StarMatchesOneLabel(part, o.ignoreCase, rest);
    FilterOne(StarSteps(), o, a, x, m0, head, name);
  }

  /** The listing compiled from `*.www.fint.me` with -6 rejects an IPv6 packet asking for
      www.fint.me itself. */
  lemma StarFilterRejects(o: Options, a: u32, x: u32, m0: u32, head: seq<byte>, rest: seq<byte>)
    requires o.inet6 && |head| == o.l3Offset + 60
    requires |head| + 13 + |rest| + 256 <= WORD
    ensures Exec(Program([StarSteps()], o), 0, Regs(a, x, m0), head + Values(WwwFintMe()) + rest)
      == Returned(RejectCode(o))
  {
    var name := Values(WwwFintMe()) + rest;
    assert head + Values(WwwFintMe()) + rest == head + name;
    StarRejectsBareName(o.ignoreCase, rest);
    FilterOne(StarSteps(), o, a, x, m0, head, name);
  }
}
