/** Code generation for one step of a pattern: `match_exact` for a run of literal octets and
    `match_star` for a wildcard target. */
module Emit {
  import opened Bits
  import opened Labels
  import opened Bpf

  /** The octet '?', which matches any one character of a target. */
  const QUESTION: byte := 63

  /** The OR-mask of one octet: all ones for '?', the case bit 0x20 for any other character
      when matching ignores case, nothing for a length octet. */
  function MaskOf(w: WireByte, ignoreCase: bool): byte
  {
    if w.isChar && w.value == QUESTION then 0xff
    else if w.isChar && ignoreCase then 0x20
    else 0
  }

  function Masks(run: seq<WireByte>, ignoreCase: bool): (r: seq<byte>)
    ensures |r| == |run|
    ensures forall i :: 0 <= i < |run| ==> r[i] == MaskOf(run[i], ignoreCase)
  {
    seq(|run|, i requires 0 <= i < |run| => MaskOf(run[i], ignoreCase))
  }

  /** Octets compared by the next load when rem octets remain: a word, a halfword or one octet. */
  function Width(rem: nat): (w: nat)
    ensures rem >= 1 ==> 1 <= w <= rem
    ensures w == 1 || w == 2 || w == 4
  {
    if rem >= 4 then 4 else if rem >= 2 then 2 else 1
  }

  /** The width of a packet load: a word, a halfword or an octet. */
  type LoadWidth = w: nat | w == 1 || w == 2 || w == 4 witness 1

  /** One load-and-compare of `match_exact`: the run's octets [off, off + width), the word
      they must equal once ORed with their masks, and the word of those masks. */
  datatype Chunk = Chunk(width: LoadWidth, off: nat, value: u32, mask: u32)

  /** The chunk that starts at octet off of a run with octets vals and masks masks. */
  function ChunkAt(vals: seq<byte>, masks: seq<byte>, off: nat): (c: Chunk)
    requires |vals| == |masks| && off < |vals|
    ensures c.off == off && c.width == Width(|vals| - off)
  {
    var w := Width(|vals| - off);
    var v, m := vals[off..off + w], masks[off..off + w];
    Chunk(w, off, Word(ByteOrs(v, m)), Word(m))
  }

  /** A chunk compares the big-endian word of its masked octets, and ORs in a mask exactly
      when one of its mask octets is not zero. */
  lemma ChunkAtMeaning(vals: seq<byte>, masks: seq<byte>, off: nat)
    requires |vals| == |masks| && off < |vals|
    ensures var c := ChunkAt(vals, masks, off);
      var v, m := vals[off..off + c.width], masks[off..off + c.width];
      && off + c.width <= |vals|
      && c.value == Pack(ByteOrs(v, m)) && c.mask == Pack(m)
      && (c.mask == 0 <==> forall i :: off <= i < off + c.width ==> masks[i] == 0)
  {
    var c := ChunkAt(vals, masks, off);
    var w := c.width;
    var v, m := vals[off..off + w], masks[off..off + w];
    assert c == Chunk(w, off, Word(ByteOrs(v, m)), Word(m));
    assert c.mask == 0 <==> forall i :: 0 <= i < |m| ==> m[i] == 0 by {
      PackZero(m);
    }
    if c.mask == 0 {
      forall i | off <= i < off + w ensures masks[i] == 0 {
        assert m[i - off] == masks[i];
      }
    } else {
      var j :| 0 <= j < |m| && m[j] != 0;
      assert masks[off + j] != 0;
    }
  }

  /** The chunks of a run from octet off on: four octets while four remain, then two, then one. */
  function Chunks(vals: seq<byte>, masks: seq<byte>, off: nat): seq<Chunk>
    requires |vals| == |masks| && off <= |vals|
    decreases |vals| - off
  {
    if off == |vals| then [] else [ChunkAt(vals, masks, off)] + Chunks(vals, masks, off + Width(|vals| - off))
  }

  /** The instructions testing one chunk: load, OR in the mask when it is not zero, and leave
      for target unless the result equals the chunk's value. */
  function ChunkCode(c: Chunk, target: nat): seq<Instr>
  {
    if c.mask == 0 then [LdInd(c.width, c.off), Jneq(c.value, target)]
    else [LdInd(c.width, c.off), OrImm(c.mask), Jneq(c.value, target)]
  }

  /** The tests of a sequence of chunks, one after the other. */
  function ChunksCode(cs: seq<Chunk>, target: nat): seq<Instr>
  {
    if cs == [] then [] else ChunkCode(cs[0], target) + ChunksCode(cs[1..], target)
  }

  lemma ChunksCodeCons(c: Chunk, cs: seq<Chunk>, target: nat)
    ensures ChunksCode([c] + cs, target) == ChunkCode(c, target) + ChunksCode(cs, target)
  {
    assert ([c] + cs)[1..] == cs;
  }

  /** The listing `match_exact` prints for a run: the chunk tests, then, unless the run ends
      the pattern, the advance of X past the run. */
  function ExactCode(run: seq<WireByte>, ignoreCase: bool, target: nat, last: bool): seq<Instr>
  {
    ChunksCode(Chunks(Values(run), Masks(run, ignoreCase), 0), target) + AdvanceCode(|run|, last)
  }

  /** After a run that does not end the pattern: X moves past its n octets. */
  function AdvanceCode(n: nat, last: bool): seq<Instr>
  {
    if last then [] else [Txa, AddImm(n), Tax]
  }

  /** The listing `match_star` prints: skip one target, whatever its length. */
  function StarCode(): seq<Instr>
  {
    [LdInd(1, 0), AddX, AddImm(1), Tax]
  }

  /** The mask loop of `match_exact`: one mask octet per octet of the run. */
  method MaskBytes(rule: seq<WireByte>, ignoreCase: bool) returns (mask: seq<byte>)
    ensures mask == Masks(rule, ignoreCase)
  {
    mask := [];
    for k := 0 to |rule|
      invariant |mask| == k
      invariant forall j :: 0 <= j < k ==> mask[j] == MaskOf(rule[j], ignoreCase)
    {
      var wb := rule[k];
      if wb.isChar && wb.value == QUESTION {
        mask := mask + [0xff];
      } else if wb.isChar && ignoreCase {
        mask := mask + [0x20];
      } else {
        mask := mask + [0];
      }
    }
  }

  /** One chunk of `match_exact`: load the packet octets, OR in the mask when it is not zero,
      and leave for the target label unless the result equals the chunk's octets ORed with it
      (the OR of the packed words, as `match_exact` computes it). */
  method TestChunk(m: seq<byte>, mm: seq<byte>, off: nat, target: nat) returns (c: seq<Instr>)
    requires |m| == |mm| && (|m| == 1 || |m| == 2 || |m| == 4)
    ensures c == ChunkCode(Chunk(|m|, off, Word(ByteOrs(m, mm)), Word(mm)), target)
  {
    WordOrPack(m, mm);
    var k: u32, km: u32 := Word(m), Word(mm);
    c := [LdInd(|m|, off)];
    if km != 0 {
      c := c + [OrImm(km)];
      k := WordOr(k, km);
    } else {
      assert ByteOrs(m, mm) == m by {
        PackZero(mm);
        forall i | 0 <= i < |m| ensures ByteOrs(m, mm)[i] == m[i] { ByteOrZero(m[i]); }
      }
    }
    c := c + [Jneq(k, target)];
  }

  /** `match_exact`: builds the masks, then consumes the run four, two or one octets at a time. */
  method MatchExact(rule: seq<WireByte>, target: nat, last: bool, ignoreCase: bool) returns (code: seq<Instr>)
    ensures code == ExactCode(rule, ignoreCase, target, last)
  {
    var mask := MaskBytes(rule, ignoreCase);
    ghost var vals, masks := Values(rule), Masks(rule, ignoreCase);
    var s := Values(rule);
    var off := 0;
    code := [];
    while s != []
      invariant off + |s| == |rule| && s == vals[off..] && mask == masks[off..]
      invariant code + ChunksCode(Chunks(vals, masks, off), target) == ChunksCode(Chunks(vals, masks, 0), target)
      decreases |s|
    {
      s, mask, off, code := EmitChunk(s, mask, off, code, target, vals, masks);
    }
    assert code == ChunksCode(Chunks(vals, masks, 0), target) by {
      assert ChunksCode(Chunks(vals, masks, off), target) == [];
    }
    if !last {
      code := code + [Txa, AddImm(off), Tax];
    }
  }

  /** One turn of the loop of MatchExact: cuts the next chunk off the run and appends its test. */
  method EmitChunk(s: seq<byte>, mask: seq<byte>, off: nat, code: seq<Instr>, target: nat,
                   ghost vals: seq<byte>, ghost masks: seq<byte>)
    returns (s': seq<byte>, mask': seq<byte>, off': nat, code': seq<Instr>)
    requires |vals| == |masks| && s != []
    requires off + |s| == |vals| && s == vals[off..] && mask == masks[off..]
    requires code + ChunksCode(Chunks(vals, masks, off), target) == ChunksCode(Chunks(vals, masks, 0), target)
    ensures off' + |s'| == |vals| && s' == vals[off'..] && mask' == masks[off'..] && |s'| < |s|
    ensures code' + ChunksCode(Chunks(vals, masks, off'), target) == ChunksCode(Chunks(vals, masks, 0), target)
  {
    var m, mm;
    m, mm, s', mask' := NextChunk(s, mask);
    off' := off + |m|;
    ghost var w := |m|;
    assert w == Width(|vals| - off) && off' <= |vals|;
    assert m == vals[off..off'] && mm == masks[off..off'] && s' == vals[off'..] && mask' == masks[off'..] by {
      SliceNext(vals, s, off, w);
      SliceNext(masks, mask, off, w);
    }
    var c := TestChunk(m, mm, off, target);
    code' := code + c;
    ChunkStep(vals, masks, code, off, w, target, m, mm, c, code', off');
  }

  /** Cuts the next chunk of a run's values and masks: four octets while at least four
      remain, else two while two remain, else one. */
  method NextChunk(s: seq<byte>, mask: seq<byte>) returns (m: seq<byte>, mm: seq<byte>, s': seq<byte>, mask': seq<byte>)
    requires |s| == |mask| && s != []
    ensures var w := Width(|s|);
      m == s[..w] && mm == mask[..w] && s' == s[w..] && mask' == mask[w..]
  {
    if |s| >= 4 {
      m, s' := s[..4], s[4..];
      mm, mask' := mask[..4], mask[4..];
    } else if |s| >= 2 {
      m, s' := s[..2], s[2..];
      mm, mask' := mask[..2], mask[2..];
    } else {
      m, s' := s[..1], s[1..];
      mm, mask' := mask[..1], mask[1..];
    }
  }

  /** Emitting the next chunk keeps the emitted code a prefix of the whole listing. */
  lemma ChunkStep(vals: seq<byte>, masks: seq<byte>, code: seq<Instr>, off: nat, w: nat, target: nat,
                  m: seq<byte>, mm: seq<byte>, c: seq<Instr>, code': seq<Instr>, off': nat)
    requires |vals| == |masks| && off < |vals| && w == Width(|vals| - off)
    requires code + ChunksCode(Chunks(vals, masks, off), target) == ChunksCode(Chunks(vals, masks, 0), target)
    requires m == vals[off..off + w] && mm == masks[off..off + w]
    requires c == ChunkCode(Chunk(|m|, off, Word(ByteOrs(m, mm)), Word(mm)), target)
    requires code' == code + c && off' == off + |m|
    ensures off' <= |vals|
    ensures code' + ChunksCode(Chunks(vals, masks, off'), target) == ChunksCode(Chunks(vals, masks, 0), target)
  {
    var h := ChunkAt(vals, masks, off);
    assert c == ChunkCode(h, target) by {
      assert h == Chunk(|m|, off, Word(ByteOrs(m, mm)), Word(mm));
    }
    var rest := Chunks(vals, masks, off');
    assert Chunks(vals, masks, off) == [h] + rest;
    assert ChunksCode([h] + rest, target) == c + ChunksCode(rest, target) by {
      ChunksCodeCons(h, rest, target);
    }
    Assoc(code, c, ChunksCode(rest, target));
  }

  lemma SliceNext<T>(all: seq<T>, s: seq<T>, off: nat, w: nat)
    requires off <= |all| && s == all[off..] && w <= |s|
    ensures s[..w] == all[off..off + w] && s[w..] == all[off + w..]
  {
  }

  lemma Assoc<T>(a: seq<T>, b: seq<T>, c: seq<T>)
    ensures (a + b) + c == a + (b + c)
  {
  }

  /** The (width, offset) pairs of the packet loads of a listing, in order. */
  function Loads(code: seq<Instr>): seq<(nat, nat)>
  {
    if code == [] then []
    else (if code[0].LdInd? then [(code[0].width, code[0].off)] else []) + Loads(code[1..])
  }

  lemma {:induction false} LoadsAppend(a: seq<Instr>, b: seq<Instr>)
    ensures Loads(a + b) == Loads(a) + Loads(b)
  {
    if a == [] {
      assert a + b == b;
    } else {
      assert (a + b)[0] == a[0] && (a + b)[1..] == a[1..] + b;
      LoadsAppend(a[1..], b);
    }
  }

  lemma {:induction false} LoadsNone(code: seq<Instr>)
    requires forall pc :: 0 <= pc < |code| ==> !code[pc].LdInd?
    ensures Loads(code) == []
  {
    if code != [] {
      LoadsNone(code[1..]);
    }
  }

  /** The (width, offset) pairs of the chunks of a run of n octets from offset off on. */
  function Layout(n: nat, off: nat): seq<(nat, nat)>
    decreases n - off
  {
    if off >= n then [] else [(Width(n - off), off)] + Layout(n, off + Width(n - off))
  }

  /** The width of chunk k of a run of 4 * q + r octets, r < 4. */
  function ChunkWidth(q: nat, r: nat, k: nat): nat
  {
    if k < q then 4 else if k == q && r >= 2 then 2 else 1
  }

  /** Words while four or more octets remain, then at most one halfword, then at most one
      octet; each chunk starts where the one before ends, and the last ends at n. */
  predicate Shaped(l: seq<(nat, nat)>, n: nat, off: nat, q: nat, r: nat)
  {
    && |l| == q + (if r >= 2 then 1 else 0) + (if r % 2 == 1 then 1 else 0)
    && (forall k :: 0 <= k < |l| ==> l[k].0 == ChunkWidth(q, r, k))
    && (l != [] ==> l[0].1 == off && l[|l| - 1].1 + l[|l| - 1].0 == n)
    && (forall k :: 0 <= k < |l| - 1 ==> l[k + 1].1 == l[k].1 + l[k].0)
  }

  /** The chunks of a run of 4 * q + r octets, r < 4, have the shape `match_exact` gives them. */
  lemma {:induction false} LayoutShape(n: nat, off: nat, q: nat, r: nat)
    requires r < 4 && n == off + 4 * q + r
    ensures Shaped(Layout(n, off), n, off, q, r)
    decreases q
  {
    if q > 0 {
      LayoutShape(n, off + 4, q - 1, r);
      LayoutWord(n, off, q, r);
    } else {
      LayoutTail(n, off, r);
    }
  }

  /** A word in front of a shaped layout gives a shaped layout with one more word. */
  lemma LayoutWord(n: nat, off: nat, q: nat, r: nat)
    requires r < 4 && q > 0 && n == off + 4 * q + r
    requires Shaped(Layout(n, off + 4), n, off + 4, q - 1, r)
    ensures Shaped(Layout(n, off), n, off, q, r)
  {
    var l := Layout(n, off);
    var rest := Layout(n, off + 4);
    assert l == [(4, off)] + rest;
    forall k | 0 <= k < |l|
      ensures l[k].0 == ChunkWidth(q, r, k)
    {
      if k > 0 {
        assert l[k] == rest[k - 1];
        assert rest[k - 1].0 == ChunkWidth(q - 1, r, k - 1);
      }
    }
    forall k | 0 <= k < |l| - 1
      ensures l[k + 1].1 == l[k].1 + l[k].0
    {
      if k > 0 {
        assert l[k] == rest[k - 1] && l[k + 1] == rest[k];
      }
    }
  }

  /** Fewer than four octets: at most a halfword, then at most an octet. */
  lemma LayoutTail(n: nat, off: nat, r: nat)
    requires r < 4 && n == off + r
    ensures Shaped(Layout(n, off), n, off, 0, r)
  {
    var l := Layout(n, off);
    if r == 1 {
      assert l == [(1, off)] + Layout(n, n);
    } else if r == 2 {
      assert l == [(2, off)] + Layout(n, n);
    } else if r == 3 {
      assert Layout(n, off + 2) == [(1, off + 2)] + Layout(n, n);
      assert l == [(2, off), (1, off + 2)];
    }
  }

  lemma {:induction false} ChunksLoads(vals: seq<byte>, masks: seq<byte>, off: nat, target: nat)
    requires |vals| == |masks| && off <= |vals|
    ensures Loads(ChunksCode(Chunks(vals, masks, off), target)) == Layout(|vals|, off)
    decreases |vals| - off
  {
    if off < |vals| {
      var c := ChunkAt(vals, masks, off);
      var next := off + c.width;
      var rest := Chunks(vals, masks, next);
      var code, tail := ChunkCode(c, target), ChunksCode(rest, target);
      assert ChunksCode(Chunks(vals, masks, off), target) == code + tail by {
        assert Chunks(vals, masks, off) == [c] + rest;
        ChunksCodeCons(c, rest, target);
      }
      assert Loads(code + tail) == Loads(code) + Loads(tail) by {
        LoadsAppend(code, tail);
      }
      assert Loads(code) == [(c.width, off)] by {
        ChunkLoads(c, target);
      }
      assert Loads(tail) == Layout(|vals|, next) by {
        ChunksLoads(vals, masks, next, target);
      }
    }
  }

  lemma ChunkLoads(c: Chunk, target: nat)
    ensures Loads(ChunkCode(c, target)) == [(c.width, c.off)]
  {
    var code := ChunkCode(c, target);
    LoadsNone(code[1..]);
    assert code == [code[0]] + code[1..];
  }

  lemma ExactLayout(run: seq<WireByte>, ignoreCase: bool, target: nat, last: bool)
    ensures Loads(ExactCode(run, ignoreCase, target, last)) == Layout(|run|, 0)
  {
    var vals, masks := Values(run), Masks(run, ignoreCase);
    var chunks := ChunksCode(Chunks(vals, masks, 0), target);
    assert Loads(chunks) == Layout(|run|, 0) by {
      ChunksLoads(vals, masks, 0, target);
    }
    assert Loads(chunks + AdvanceCode(|run|, last)) == Loads(chunks) by {
      AdvanceLoads(chunks, |run|, last);
    }
  }

  /** Moving X past a run loads nothing. */
  lemma AdvanceLoads(a: seq<Instr>, n: nat, last: bool)
    ensures Loads(a + AdvanceCode(n, last)) == Loads(a)
  {
    var b := AdvanceCode(n, last);
    LoadsAppend(a, b);
    LoadsNone(b);
    assert Loads(a) + [] == Loads(a);
  }

  /** The loads `match_exact` emits for a run of n = 4 * q + r octets (r < 4): q words, then
      a halfword when r >= 2, then an octet when r is odd, at offsets 0, w1, w1 + w2, ... that
      cover every octet of the run once and end at n. */
  lemma ExactLoads(run: seq<WireByte>, ignoreCase: bool, target: nat, last: bool, q: nat, r: nat)
    requires |run| == 4 * q + r && r < 4
    ensures var loads := Loads(ExactCode(run, ignoreCase, target, last));
      && |loads| == q + (if r >= 2 then 1 else 0) + (if r % 2 == 1 then 1 else 0)
      && (forall k :: 0 <= k < |loads| ==> loads[k].0 == ChunkWidth(q, r, k))
      && (|run| > 0 ==> loads[0].1 == 0 && loads[|loads| - 1].1 + loads[|loads| - 1].0 == |run|)
      && (forall k :: 0 <= k < |loads| - 1 ==> loads[k + 1].1 == loads[k].1 + loads[k].0)
  {
    ExactLayout(run, ignoreCase, target, last);
    LayoutShape(|run|, 0, q, r);
    if |run| > 0 {
      assert Layout(|run|, 0) != [];
    }
  }

  predicate NoOr(code: seq<Instr>)
  {
    forall pc :: 0 <= pc < |code| ==> !code[pc].OrImm?
  }

  lemma NoOrAppend(a: seq<Instr>, b: seq<Instr>)
    ensures NoOr(a + b) <==> NoOr(a) && NoOr(b)
  {
    assert forall pc :: 0 <= pc < |a| ==> (a + b)[pc] == a[pc];
    assert forall pc :: 0 <= pc < |b| ==> (a + b)[|a| + pc] == b[pc];
  }

  lemma ChunkNoOr(c: Chunk, target: nat)
    ensures NoOr(ChunkCode(c, target)) <==> c.mask == 0
  {
    if c.mask != 0 {
      assert ChunkCode(c, target)[1].OrImm?;
    }
  }

  lemma {:induction false} ChunksNoOr(vals: seq<byte>, masks: seq<byte>, off: nat, target: nat)
    requires |vals| == |masks| && off <= |vals|
    ensures NoOr(ChunksCode(Chunks(vals, masks, off), target)) <==> forall i :: off <= i < |masks| ==> masks[i] == 0
    decreases |vals| - off
  {
    if off < |vals| {
      var c := ChunkAt(vals, masks, off);
      var rest := Chunks(vals, masks, off + c.width);
      assert ChunksCode(Chunks(vals, masks, off), target) == ChunkCode(c, target) + ChunksCode(rest, target) by {
        ChunksCodeCons(c, rest, target);
      }
      NoOrAppend(ChunkCode(c, target), ChunksCode(rest, target));
      ChunksNoOr(vals, masks, off + c.width, target);
      HeadNoOr(vals, masks, off, target);
      ZeroSplit(masks, off, off + c.width);
    }
  }

  lemma HeadNoOr(vals: seq<byte>, masks: seq<byte>, off: nat, target: nat)
    requires |vals| == |masks| && off < |vals|
    ensures var c := ChunkAt(vals, masks, off);
      off + c.width <= |masks| && (NoOr(ChunkCode(c, target)) <==> forall i :: off <= i < off + c.width ==> masks[i] == 0)
  {
    ChunkNoOr(ChunkAt(vals, masks, off), target);
    ChunkAtMeaning(vals, masks, off);
  }

  lemma ZeroSplit(masks: seq<byte>, lo: nat, mid: nat)
    requires lo <= mid <= |masks|
    ensures (forall i :: lo <= i < |masks| ==> masks[i] == 0)
      <==> (forall i :: lo <= i < mid ==> masks[i] == 0) && (forall i :: mid <= i < |masks| ==> masks[i] == 0)
  {
  }

  /** Without '?' and with case respected, a chunk ORs in no mask and compares exactly the
      big-endian value of the run's wire octets under it. */
  lemma ExactConstants(run: seq<WireByte>, off: nat)
    requires off < |run|
    requires forall i :: 0 <= i < |run| ==> !run[i].isChar || run[i].value != QUESTION
    ensures var c := ChunkAt(Values(run), Masks(run, false), off);
      && off + c.width <= |run|
      && c.mask == 0
      && c.value == Pack(Values(run)[off..off + c.width])
  {
    var vals, masks := Values(run), Masks(run, false);
    var c := ChunkAt(vals, masks, off);
    var w := c.width;
    assert off + w <= |vals| by {
      ChunkAtMeaning(vals, masks, off);
    }
    var v, m := vals[off..off + w], masks[off..off + w];
    assert c.value == Pack(ByteOrs(v, m)) && c.mask == Pack(m) by {
      ChunkAtMeaning(vals, masks, off);
    }
    assert Pack(m) == 0 by {
      forall i | 0 <= i < |m| ensures m[i] == 0 {
        assert m[i] == MaskOf(run[off + i], false);
      }
      PackZero(m);
    }
    assert ByteOrs(v, m) == v by {
      forall i | 0 <= i < |v| ensures ByteOrs(v, m)[i] == v[i] {
        ByteOrZero(v[i]);
      }
    }
  }

  /** `match_exact` emits an `or` exactly when some octet of the run has a nonzero mask:
      a '?' anywhere, or any character when case is ignored. */
  lemma ExactOr(run: seq<WireByte>, ignoreCase: bool, target: nat, last: bool)
    ensures NoOr(ExactCode(run, ignoreCase, target, last))
      <==> forall i :: 0 <= i < |run| ==> !run[i].isChar || (run[i].value != QUESTION && !ignoreCase)
  {
    var chunks := ChunksCode(Chunks(Values(run), Masks(run, ignoreCase), 0), target);
    var advance := AdvanceCode(|run|, last);
    ChunksNoOr(Values(run), Masks(run, ignoreCase), 0, target);
    NoOrAppend(chunks, advance);
  }
}
