/** Normalising a domain pattern, splitting it into labels and encoding literal labels
    in DNS wire form (a length octet, then the characters; RFC 1035 section 3.1). */
module Labels {
  import opened Bits

  /** A character of a command-line argument: a byte of a Python 2 string. */
  type Octet = c: char | c as int < 256

  /** Why no filter is produced: a label of 256 or more characters, for which chr() raises
      ValueError, or no domain at all on the command line. */
  datatype Error = ChrOutOfRange | NoDomain

  datatype Result<T> = Ok(value: T) | Err(error: Error)

  predicate IsDot(c: Octet) { c == '.' }

  /** The characters `str.strip()` removes from a byte string: space, tab, LF, VT, FF and CR. */
  predicate IsSpace(c: Octet) { c == ' ' || 9 <= c as int <= 13 }

  /** The argument of a strip: `strip(".")` removes dots, `strip()` whitespace. */
  datatype Drop = Dots | Spaces

  predicate Drops(d: Drop, c: Octet)
  {
    match d
    case Dots => IsDot(c)
    case Spaces => IsSpace(c)
  }

  /** Removes the leading characters that d drops. */
  function StripStart(s: seq<Octet>, d: Drop): (r: seq<Octet>)
    ensures |r| <= |s| && r == s[|s| - |r|..]
    ensures forall k :: 0 <= k < |s| - |r| ==> Drops(d, s[k])
    ensures r == [] || !Drops(d, r[0])
  {
    if s != [] && Drops(d, s[0]) then StripStart(s[1..], d) else s
  }

  /** Removes the trailing characters that d drops. */
  function StripEnd(s: seq<Octet>, d: Drop): (r: seq<Octet>)
    ensures |r| <= |s| && r == s[..|r|]
    ensures forall k :: |r| <= k < |s| ==> Drops(d, s[k])
    ensures r == [] || !Drops(d, r[|r| - 1])
  {
    if s != [] && Drops(d, s[|s| - 1]) then StripEnd(s[..|s| - 1], d) else s
  }

  /** Python's `s.strip(chars)`: both ends at once. */
  function Strip(s: seq<Octet>, d: Drop): seq<Octet>
  {
    StripEnd(StripStart(s, d), d)
  }

  /** `domain.strip(".").strip() + '.'`: dots are stripped first, whitespace second,
      and one dot (the root) is appended. */
  function Normalize(domain: seq<Octet>): (r: seq<Octet>)
    ensures |r| >= 1 && r[|r| - 1] == '.'
  {
    var stripped := Strip(Strip(domain, Dots), Spaces);
    stripped + ['.']
  }

  /** `s.split(".")`: the parts between dots, in order; k dots give k + 1 parts. */
  function Split(s: seq<Octet>): (r: seq<seq<Octet>>)
    ensures |r| >= 1
  {
    if s == [] then [[]]
    else
      var rest := Split(s[1..]);
      if s[0] == '.' then [[]] + rest else [[s[0]] + rest[0]] + rest[1..]
  }

  /** `".".join(parts)`, the inverse of Split. */
  function Join(parts: seq<seq<Octet>>): seq<Octet>
    requires |parts| >= 1
  {
    if |parts| == 1 then parts[0] else parts[0] + ['.'] + Join(parts[1..])
  }

  /** One octet of an encoded label: `(False, chr(n))` is the length octet,
      `(True, c)` a character of the label. */
  datatype WireByte = WireByte(isChar: bool, value: byte)

  /** A label of a pattern: `(True, encoded bytes)` for a literal, `(False, '*')` for a wildcard. */
  datatype Token = Literal(bytes: seq<WireByte>) | Star

  /** The wire form of a literal label: its length, then its characters. */
  function Encode(part: seq<Octet>): seq<WireByte>
    requires |part| < 256
  {
    [WireByte(false, |part|)] + seq(|part|, i requires 0 <= i < |part| => WireByte(true, part[i] as int))
  }

  /** The octets an encoded sequence stands for, without the tags. */
  function Values(ws: seq<WireByte>): (r: seq<byte>)
    ensures |r| == |ws|
    ensures forall i :: 0 <= i < |ws| ==> r[i] == ws[i].value
  {
    seq(|ws|, i requires 0 <= i < |ws| => ws[i].value)
  }

  function OctetValues(s: seq<Octet>): (r: seq<byte>)
    ensures |r| == |s|
    ensures forall i :: 0 <= i < |s| ==> r[i] == s[i] as int
  {
    seq(|s|, i requires 0 <= i < |s| => s[i] as int)
  }

  /** A DNS reader's view of one label at the head of wire data: the length octet n,
      then n characters; None when the data ends early. */
  function DecodeLabel(w: seq<byte>): Option<(seq<Octet>, seq<byte>)>
  {
    if w == [] then None
    else
      var n: int := w[0];
      if |w| < 1 + n then None
      else Some((seq(n, i requires 0 <= i < n => w[1 + i] as char), w[1 + n..]))
  }

  /** The token of one part, or the error chr() raises for a part of 256 or more characters. */
  function TokenOf(part: seq<Octet>): Result<Token>
  {
    if part == ['*'] then Ok(Star)
    else if |part| >= 256 then Err(ChrOutOfRange)
    else Ok(Literal(Encode(part)))
  }

  /** The labels of a pattern: the normalised domain split at its dots, the empty root label last. */
  function Parts(domain: seq<Octet>): (parts: seq<seq<Octet>>)
    ensures |parts| >= 1
  {
    Split(Normalize(domain))
  }

  /** The tokens of the given parts, in order, or the error of the first part that has none. */
  function TokensOf(parts: seq<seq<Octet>>): Result<seq<Token>>
  {
    if exists j :: 0 <= j < |parts| && TokenOf(parts[j]).Err? then Err(ChrOutOfRange)
    else Ok(seq(|parts|, j requires 0 <= j < |parts| => TokenOf(parts[j]).value))
  }

  /** The tokens of a whole pattern, in the order of its labels, root label last. */
  function Tokenize(domain: seq<Octet>): Result<seq<Token>>
  {
    TokensOf(Parts(domain))
  }

  /** The loop of the tokenizer: one token per part, appended in order; the first part of
      256 or more characters ends it with the error chr() raises. */
  method TokenizeDomain(domain: seq<Octet>) returns (r: Result<seq<Token>>)
    ensures r == Tokenize(domain)
  {
    var parts := Parts(domain);
    var rule: seq<Token> := [];
    for k := 0 to |parts|
      invariant |rule| == k
      invariant forall j :: 0 <= j < k ==> TokenOf(parts[j]) == Ok(rule[j])
    {
      var part := parts[k];
      if part == ['*'] {
        assert TokenOf(part) == Ok(Star);
        rule := rule + [Star];
      } else {
        if |part| >= 256 {
          assert TokenOf(parts[k]).Err?;
          return Err(ChrOutOfRange);
        }
        assert TokenOf(part) == Ok(Literal(Encode(part)));
        rule := rule + [Literal(Encode(part))];
      }
    }
    assert rule == seq(|parts|, j requires 0 <= j < |parts| => TokenOf(parts[j]).value);
    r := Ok(rule);
  }

  /** Splitting then joining gives the string back. */
  lemma {:induction false} JoinSplit(s: seq<Octet>)
    ensures Join(Split(s)) == s
    ensures forall k :: 0 <= k < |Split(s)| ==> '.' !in Split(s)[k]
  {
    if s != [] {
      JoinSplit(s[1..]);
      var rest := Split(s[1..]);
      if s[0] != '.' && |rest| > 1 {
        assert Join(rest) == rest[0] + ['.'] + Join(rest[1..]);
      }
    }
  }

  /** Joining dot-free parts then splitting gives the parts back. */
  lemma {:induction false} SplitJoin(parts: seq<seq<Octet>>)
    requires |parts| >= 1
    requires forall k :: 0 <= k < |parts| ==> '.' !in parts[k]
    ensures Split(Join(parts)) == parts
  {
    if |parts| == 1 {
      SplitPlain(parts[0]);
    } else {
      SplitJoin(parts[1..]);
      SplitDot(parts[0], Join(parts[1..]));
    }
  }

  lemma {:induction false} SplitPlain(a: seq<Octet>)
    requires '.' !in a
    ensures Split(a) == [a]
  {
    if a != [] {
      SplitPlain(a[1..]);
      assert a[0] != '.' && a == [a[0]] + a[1..];
    }
  }

  lemma {:induction false} SplitDot(a: seq<Octet>, b: seq<Octet>)
    requires '.' !in a
    ensures Split(a + ['.'] + b) == [a] + Split(b)
  {
    var s := a + ['.'] + b;
    if a == [] {
      assert s[1..] == b;
    } else {
      assert s[1..] == a[1..] + ['.'] + b;
      SplitDot(a[1..], b);
      assert s[0] == a[0] != '.' && a == [a[0]] + a[1..];
    }
  }

  /** A trailing dot adds one empty part: the root label. */
  lemma {:induction false} SplitTrailingDot(s: seq<Octet>)
    ensures Split(s + ['.']) == Split(s) + [[]]
  {
    if s == [] {
      assert Split(['.']) == [[]] + Split([]);
    } else {
      assert (s + ['.'])[1..] == s[1..] + ['.'];
      SplitTrailingDot(s[1..]);
    }
  }

  /** The wire form of a label is read back by a DNS reader as that label. */
  lemma EncodeDecode(part: seq<Octet>, rest: seq<byte>)
    requires |part| < 256
    ensures Values(Encode(part))[0] == |part|
    ensures Values(Encode(part))[1..] == OctetValues(part)
    ensures DecodeLabel(Values(Encode(part)) + rest) == Some((part, rest))
  {
    var w := Values(Encode(part)) + rest;
    assert w[1 + |part|..] == rest;
    forall i | 0 <= i < |part|
      ensures w[1 + i] as char == part[i]
    {
      assert w[1 + i] == part[i] as int;
    }
    var n: int := w[0];
    assert n == |part|;
    var text := seq(n, i requires 0 <= i < n => w[1 + i] as char);
    assert text == part;
    assert DecodeLabel(w) == Some((text, w[1 + n..]));
  }

  /** The characters a token stands for: `*` for a wildcard, the label text for a literal. */
  function LabelText(t: Token): seq<Octet>
  {
    match t
    case Star => ['*']
    case Literal(ws) =>
      if ws == [] then [] else seq(|ws| - 1, i requires 0 <= i < |ws| - 1 => ws[i + 1].value as char)
  }

  function Texts(ts: seq<Token>): (r: seq<seq<Octet>>)
    ensures |r| == |ts|
    ensures forall j :: 0 <= j < |ts| ==> r[j] == LabelText(ts[j])
  {
    seq(|ts|, j requires 0 <= j < |ts| => LabelText(ts[j]))
  }

  lemma TextsOfTokens(parts: seq<seq<Octet>>)
    requires TokensOf(parts).Ok?
    ensures Texts(TokensOf(parts).value) == parts
  {
    var ts := TokensOf(parts).value;
    forall j | 0 <= j < |parts|
      ensures LabelText(ts[j]) == parts[j]
    {
    }
  }

  /** Tokenizing loses nothing: the texts of the tokens, joined by dots, are the normalised domain. */
  lemma TokenizeLossless(domain: seq<Octet>)
    requires Tokenize(domain).Ok?
    ensures Join(Texts(Tokenize(domain).value)) == Normalize(domain)
  {
    TextsOfTokens(Parts(domain));
    JoinSplit(Normalize(domain));
  }

  lemma TokensOfFail(parts: seq<seq<Octet>>)
    ensures TokensOf(parts).Err? <==> exists j :: 0 <= j < |parts| && |parts[j]| >= 256
  {
    forall j | 0 <= j < |parts|
      ensures TokenOf(parts[j]).Err? <==> |parts[j]| >= 256
    {
    }
  }

  /** The tokenizer fails exactly when some label of the normalised domain has 256 or more characters. */
  lemma TokenizeFails(domain: seq<Octet>)
    ensures Tokenize(domain).Err? <==> exists j :: 0 <= j < |Parts(domain)| && |Parts(domain)[j]| >= 256
  {
    TokensOfFail(Parts(domain));
  }

  /** A pattern written as dot-free parts joined by dots, with neither a dot nor whitespace
      at either end, has those parts as its labels, then the root label. */
  lemma PartsOfPlain(parts: seq<seq<Octet>>)
    requires |parts| >= 1 && forall k :: 0 <= k < |parts| ==> '.' !in parts[k]
    requires var s := Join(parts);
      s != [] && !IsDot(s[0]) && !IsSpace(s[0]) && !IsDot(s[|s| - 1]) && !IsSpace(s[|s| - 1])
    ensures Parts(Join(parts)) == parts + [[]]
  {
    var s := Join(parts);
    StripKeeps(s, Dots);
    StripKeeps(s, Spaces);
    assert Normalize(s) == s + ['.'];
    SplitTrailingDot(s);
    SplitJoin(parts);
  }

  /** The last part of a pattern is the empty root label. */
  lemma PartsEndWithRoot(domain: seq<Octet>)
    ensures |Parts(domain)| >= 2 && Parts(domain)[|Parts(domain)| - 1] == []
  {
    var stripped := Strip(Strip(domain, Dots), Spaces);
    assert Normalize(domain) == stripped + ['.'];
    SplitTrailingDot(stripped);
    assert Parts(domain) == Split(stripped) + [[]];
  }

  /** A pattern always ends with the root label, whose encoding is the single length octet 0;
      a part becomes a wildcard exactly when it is the one character `*`, and every other part
      becomes its wire encoding. */
  lemma TokenizeShape(domain: seq<Octet>)
    requires Tokenize(domain).Ok?
    ensures var ts := Tokenize(domain).value;
      && |ts| == |Parts(domain)| >= 2
      && ts[|ts| - 1] == Literal([WireByte(false, 0)])
      && forall j :: 0 <= j < |ts| ==>
           (ts[j] == Star <==> Parts(domain)[j] == ['*'])
           && (ts[j] != Star ==> ts[j] == Literal(Encode(Parts(domain)[j])))
  {
    var parts := Parts(domain);
    PartsEndWithRoot(domain);
    assert Encode([]) == [WireByte(false, 0)];
    assert TokenOf([]) == Ok(Literal(Encode([])));
  }

  lemma {:induction false} StripStartAppend(s: seq<Octet>, c: Octet, d: Drop)
    ensures StripStart(s + [c], d) ==
      if StripStart(s, d) == [] then StripStart([c], d) else StripStart(s, d) + [c]
  {
    if s != [] {
      assert (s + [c])[1..] == s[1..] + [c];
      StripStartAppend(s[1..], c, d);
    }
  }

  lemma LeadingDotStripped(domain: seq<Octet>)
    ensures Strip(['.'] + domain, Dots) == Strip(domain, Dots)
  {
    var s := ['.'] + domain;
    assert s[1..] == domain;
    assert Drops(Dots, s[0]);
    assert StripStart(s, Dots) == StripStart(domain, Dots);
  }

  lemma TrailingDotStripped(domain: seq<Octet>)
    ensures Strip(domain + ['.'], Dots) == Strip(domain, Dots)
  {
    var dot: Octet := '.';
    StripStartAppend(domain, dot, Dots);
    var s := StripStart(domain, Dots);
    assert StripStart([dot], Dots) == [] by {
      assert [dot][1..] == [];
    }
    if s != [] {
      assert (s + [dot])[..|s|] == s;
      assert StripEnd(s + [dot], Dots) == StripEnd(s, Dots);
    }
  }

  /** Leading dots are ignored: a pattern with one more dot in front normalises to the same string. */
  lemma LeadingDotIgnored(domain: seq<Octet>)
    ensures Normalize(['.'] + domain) == Normalize(domain)
  {
    LeadingDotStripped(domain);
  }

  /** Trailing dots are ignored: a pattern with one more dot at the end normalises to the same string. */
  lemma TrailingDotIgnored(domain: seq<Octet>)
    ensures Normalize(domain + ['.']) == Normalize(domain)
  {
    TrailingDotStripped(domain);
  }

  /** Dots are stripped before whitespace, so a dot behind a leading space stays: " .d"
      keeps an empty first label in front of d. */
  lemma DotsBeforeSpaces(d: seq<Octet>)
    requires d != [] && !IsDot(d[|d| - 1]) && !IsSpace(d[|d| - 1])
    ensures Normalize([' ', '.'] + d) == ['.'] + d + ['.']
  {
    var s: seq<Octet> := [' ', '.'] + d;
    var t: seq<Octet> := ['.'] + d;
    assert Strip(s, Dots) == s by {
      assert s[0] == ' ' && s[|s| - 1] == d[|d| - 1];
      StripKeeps(s, Dots);
    }
    assert Strip(s, Spaces) == t by {
      assert s != [] && s[0] == ' ' && s[1..] == t && t[0] == '.' && t[|t| - 1] == d[|d| - 1];
      StripStartDrops(s, Spaces);
      StripKeeps(t, Spaces);
    }
  }

  lemma StripKeeps(s: seq<Octet>, d: Drop)
    requires s != [] && !Drops(d, s[0]) && !Drops(d, s[|s| - 1])
    ensures Strip(s, d) == s
  {
  }

  lemma StripStartDrops(s: seq<Octet>, d: Drop)
    requires s != [] && Drops(d, s[0])
    ensures StripStart(s, d) == StripStart(s[1..], d)
  {
  }
}
