/** Merging the tokens of one pattern into compare runs and label skips, as `utils.merge`
    is used by the compiler: consecutive literal labels become one run of octets, each
    wildcard stays a step of its own. */
module Merge {
  import opened Labels

  /** A step of a pattern: compare a run of encoded octets at the cursor (a list of
      `(is_char, byte)` pairs), or skip exactly one label (`'*'`). */
  datatype Step = Run(bytes: seq<WireByte>) | Skip

  /** One element of a pattern read as a flat stream: an encoded octet, or a wildcard. */
  datatype Item = Wire(w: WireByte) | Wild

  function Wires(ws: seq<WireByte>): (r: seq<Item>)
    ensures |r| == |ws|
    ensures forall i :: 0 <= i < |ws| ==> r[i] == Wire(ws[i])
  {
    seq(|ws|, i requires 0 <= i < |ws| => Wire(ws[i]))
  }

  function TokenItems(ts: seq<Token>): seq<Item>
  {
    if ts == [] then []
    else (match ts[0] case Star => [Wild] case Literal(b) => Wires(b)) + TokenItems(ts[1..])
  }

  function StepItems(ss: seq<Step>): seq<Item>
  {
    if ss == [] then []
    else (match ss[0] case Skip => [Wild] case Run(b) => Wires(b)) + StepItems(ss[1..])
  }

  /** Every literal token carries at least its length octet. */
  predicate NoEmptyLiteral(ts: seq<Token>)
  {
    forall k :: 0 <= k < |ts| && ts[k].Literal? ==> ts[k].bytes != []
  }

  /** The shape merging produces: no empty run, and no run directly after another. */
  predicate Canonical(ss: seq<Step>)
  {
    && (forall k :: 0 <= k < |ss| && ss[k].Run? ==> ss[k].bytes != [])
    && (forall k :: 0 < k < |ss| && ss[k].Run? ==> ss[k - 1].Skip?)
  }

  /** The merge of a pattern's tokens. */
  function Merge(ts: seq<Token>): seq<Step>
  {
    if ts == [] then []
    else
      var rest := Merge(ts[1..]);
      match ts[0]
      case Star => [Skip] + rest
      case Literal(b) =>
        if rest != [] && rest[0].Run? then [Run(b + rest[0].bytes)] + rest[1..]
        else [Run(b)] + rest
  }

  lemma StepItemsCons(s: Step, ss: seq<Step>)
    ensures StepItems([s] + ss) == StepItems([s]) + StepItems(ss)
  {
    assert ([s] + ss)[1..] == ss;
  }

  /** Merging keeps every octet and every wildcard, in order, and adds nothing. */
  lemma {:induction false} MergeKeepsItems(ts: seq<Token>)
    ensures StepItems(Merge(ts)) == TokenItems(ts)
  {
    if ts != [] {
      MergeKeepsItems(ts[1..]);
      var rest := Merge(ts[1..]);
      match ts[0]
      case Star =>
        StepItemsCons(Skip, rest);
      case Literal(b) =>
        if rest != [] && rest[0].Run? {
          var c := rest[0].bytes;
          assert rest == [rest[0]] + rest[1..];
          StepItemsCons(rest[0], rest[1..]);
          StepItemsCons(Run(b + c), rest[1..]);
          assert Wires(b + c) == Wires(b) + Wires(c);
        } else {
          StepItemsCons(Run(b), rest);
        }
    }
  }

  /** The tokens of a pattern never hold an empty literal: every literal label carries its
      length octet. */
  lemma TokenizeNoEmpty(domain: seq<Octet>)
    requires Tokenize(domain).Ok?
    ensures NoEmptyLiteral(Tokenize(domain).value)
  {
    TokenizeShape(domain);
  }

  /** Merging yields the canonical shape: no empty run, never two runs in a row. */
  lemma {:induction false} MergeCanonical(ts: seq<Token>)
    requires NoEmptyLiteral(ts)
    ensures Canonical(Merge(ts))
    ensures ts != [] ==> Merge(ts) != [] && (Merge(ts)[0].Skip? <==> ts[0].Star?)
  {
    if ts != [] {
      assert NoEmptyLiteral(ts[1..]) by {
        forall k | 0 <= k < |ts| - 1 && ts[1..][k].Literal? ensures ts[1..][k].bytes != [] {
          assert ts[1..][k] == ts[k + 1];
        }
      }
      MergeCanonical(ts[1..]);
      assert ts[0].Literal? ==> ts[0].bytes != [];
    }
  }

  /** The number of leading octets of a stream, before its first wildcard. */
  function LeadingWires(items: seq<Item>): (n: nat)
    ensures n <= |items|
    ensures forall i :: 0 <= i < n ==> items[i].Wire?
    ensures n < |items| ==> items[n].Wild?
  {
    if items == [] || items[0].Wild? then 0 else 1 + LeadingWires(items[1..])
  }

  lemma {:induction false} LeadingWiresAppend(ws: seq<WireByte>, rest: seq<Item>)
    requires rest == [] || rest[0].Wild?
    ensures LeadingWires(Wires(ws) + rest) == |ws|
  {
    if ws != [] {
      assert (Wires(ws) + rest)[1..] == Wires(ws[1..]) + rest;
      LeadingWiresAppend(ws[1..], rest);
    }
  }

  lemma CanonicalTail(ss: seq<Step>)
    requires Canonical(ss) && ss != []
    ensures Canonical(ss[1..])
    ensures ss[0].Run? ==> ss[1..] == [] || ss[1..][0].Skip?
  {
    if |ss| > 1 && ss[0].Run? {
      var k := 1;
      assert 0 < k < |ss| && ss[k - 1].Run?;
    }
  }

  lemma {:induction false} WiresInjective(a: seq<WireByte>, b: seq<WireByte>)
    requires Wires(a) == Wires(b)
    ensures a == b
  {
    assert |a| == |b|;
    forall i | 0 <= i < |a| ensures a[i] == b[i] {
      assert Wires(a)[i] == Wires(b)[i];
    }
  }

  /** The canonical shape is unique: two canonical step sequences with the same stream
      of octets and wildcards are equal. So any merge that keeps the stream and yields
      the canonical shape computes exactly Merge. */
  lemma {:induction false} CanonicalUnique(a: seq<Step>, b: seq<Step>)
    requires Canonical(a) && Canonical(b)
    requires StepItems(a) == StepItems(b)
    ensures a == b
  {
    if a == [] || b == [] {
    } else {
      assert a == [a[0]] + a[1..] && b == [b[0]] + b[1..];
      StepItemsCons(a[0], a[1..]);
      StepItemsCons(b[0], b[1..]);
      CanonicalTail(a);
      CanonicalTail(b);
      var ia, ib := StepItems(a[1..]), StepItems(b[1..]);
      HeadItem(a);
      HeadItem(b);
      match a[0]
      case Skip =>
        assert StepItems([Skip]) == [Wild];
        assert StepItems(b) == [Wild] + ib;
        assert ia == StepItems(a)[1..] == ib;
        CanonicalUnique(a[1..], b[1..]);
      case Run(x) =>
        assert StepItems([a[0]]) == Wires(x) + StepItems([]);
        assert StepItems([b[0]]) == Wires(b[0].bytes) + StepItems([]);
        var y := b[0].bytes;
        StepItemsHead(a[1..]);
        StepItemsHead(b[1..]);
        LeadingWiresAppend(x, ia);
        LeadingWiresAppend(y, ib);
        assert |x| == |y|;
        assert Wires(x) == StepItems(a)[..|x|] == Wires(y);
        WiresInjective(x, y);
        assert ia == StepItems(a)[|x|..] == ib;
        CanonicalUnique(a[1..], b[1..]);
    }
  }

  lemma HeadItem(ss: seq<Step>)
    requires Canonical(ss) && ss != []
    ensures StepItems(ss) != [] && (StepItems(ss)[0].Wild? <==> ss[0].Skip?)
  {
    StepItemsCons(ss[0], ss[1..]);
    assert ss == [ss[0]] + ss[1..];
    match ss[0]
    case Skip =>
      assert StepItems([ss[0]]) == [Wild] + StepItems([]);
    case Run(x) =>
      assert StepItems([ss[0]]) == Wires(x) + StepItems([]);
  }

  lemma StepItemsHead(ss: seq<Step>)
    requires ss == [] || ss[0].Skip?
    ensures StepItems(ss) == [] || StepItems(ss)[0].Wild?
  {
  }

  /** The octets of a run of literal tokens, concatenated. */
  function Concat(ts: seq<Token>): seq<WireByte>
    requires forall k :: 0 <= k < |ts| ==> ts[k].Literal?
  {
    if ts == [] then [] else ts[0].bytes + Concat(ts[1..])
  }

  /** A pattern of literal labels only merges into a single run whose octets are the
      concatenated encodings of its labels, nothing inserted between them. */
  lemma {:induction false} MergeLiterals(ts: seq<Token>)
    requires ts != []
    requires forall k :: 0 <= k < |ts| ==> ts[k].Literal?
    ensures Merge(ts) == [Run(Concat(ts))]
  {
    if |ts| > 1 {
      MergeLiterals(ts[1..]);
    } else {
      assert ts[1..] == [];
      assert Merge(ts[1..]) == [];
      assert Concat(ts) == ts[0].bytes + Concat([]);
      assert ts[0] == Literal(ts[0].bytes);
      assert Merge(ts) == [Run(ts[0].bytes)] + [];
      assert ts[0].bytes + [] == ts[0].bytes;
    }
  }

  /** A pattern that ends with a literal label ends with a compare run. */
  lemma {:induction false} MergeEndsWithRun(ts: seq<Token>)
    requires ts != [] && ts[|ts| - 1].Literal?
    ensures Merge(ts) != [] && Merge(ts)[|Merge(ts)| - 1].Run?
  {
    if |ts| > 1 {
      var rest := Merge(ts[1..]);
      assert ts[1..][|ts| - 2] == ts[|ts| - 1];
      MergeEndsWithRun(ts[1..]);
      MergeLast(ts[0], ts[1..]);
    } else {
      assert ts[1..] == [];
    }
  }

  /** Merging a token in front of others keeps the last step of their merge, or turns a
      lone run into a longer run. */
  lemma MergeLast(t: Token, ts: seq<Token>)
    requires Merge(ts) != [] && Merge(ts)[|Merge(ts)| - 1].Run?
    ensures var m := Merge([t] + ts); m != [] && m[|m| - 1].Run?
  {
    assert ([t] + ts)[1..] == ts && ([t] + ts)[0] == t;
  }
}
