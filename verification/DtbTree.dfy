/** Device trees, their flattened form (Devicetree Specification v0.4, section 5.4), and the arrays of
    nodes and properties that the token loop builds from it.
  */
module DtbTree {
  import opened Endian
  import opened Extents
  import opened DtbModel

  /** A property names its name by offset into the strings block. */
  datatype TreeProp = TreeProp(nameOff: nat, value: seq<byte>)

  datatype Tree = Tree(name: seq<byte>, props: seq<TreeProp>, children: seq<Tree>)

  // --- flattened form ------------------------------------------------------------------------

  datatype Token = Begin(name: seq<byte>) | End | Property(prop: TreeProp) | Nop | Fin

  function Zeros(n: nat): (z: seq<byte>)
    ensures |z| == n
  {
    if n == 0 then [] else [0] + Zeros(n - 1)
  }

  function U32(x: nat): (b: seq<byte>)
    ensures |b| == 4
  {
    BigBytes(x, 4)
  }

  function WithPadding(b: seq<byte>): seq<byte>
    requires |b| <= MAX_BLOB
  {
    PaddedMeaning(|b|);
    b + Zeros(Padded(|b|) - |b|)
  }

  /** What a blob may say: names without NUL, lengths and offsets of 32 bits, names in the strings block. */
  predicate TokenOk(strings: seq<byte>, tok: Token) {
    match tok
    case Begin(name) => 0 !in name && |name| < MAX_BLOB
    case Property(prop) => |prop.value| < MAX_BLOB && prop.nameOff < MAX_BLOB && CString(strings, prop.nameOff).Some?
    case _ => true
  }

  function Encode(strings: seq<byte>, tok: Token): seq<byte>
    requires TokenOk(strings, tok)
  {
    match tok
    case Begin(name) => U32(1) + WithPadding(name + [0])
    case End => U32(2)
    case Property(prop) => U32(3) + U32(|prop.value|) + U32(prop.nameOff) + WithPadding(prop.value)
    case Nop => U32(4)
    case Fin => U32(9)
  }

  /** The tokens of section 5.4.1, byte for byte. */
  lemma TokenBytes(strings: seq<byte>, name: seq<byte>, prop: TreeProp)
    requires TokenOk(strings, Begin(name)) && TokenOk(strings, Property(prop))
    ensures [0, 0, 0, 1] <= Encode(strings, Begin(name)) && Encode(strings, End) == [0, 0, 0, 2]
    ensures [0, 0, 0, 3] <= Encode(strings, Property(prop))
    ensures Encode(strings, Nop) == [0, 0, 0, 4] && Encode(strings, Fin) == [0, 0, 0, 9]
  {
    hide CString, WithPadding;
    SmallWord(1);
    SmallWord(2);
    SmallWord(3);
    SmallWord(4);
    SmallWord(9);
  }

  lemma SmallWord(x: nat)
    requires x < 256
    ensures U32(x) == [0, 0, 0, x]
  {
    assert BigBytes(x / 256, 3) == [0, 0, 0];
  }

  function EncodeAll(strings: seq<byte>, toks: seq<Token>): seq<byte>
    requires forall tok :: tok in toks ==> TokenOk(strings, tok)
  {
    if toks == [] then [] else Encode(strings, toks[0]) + EncodeAll(strings, toks[1..])
  }

  function PropTokens(props: seq<TreeProp>): seq<Token> {
    if props == [] then [] else [Property(props[0])] + PropTokens(props[1..])
  }

  function TreeTokens(t: Tree): seq<Token>
    decreases t, 1
  {
    [Begin(t.name)] + PropTokens(t.props) + ForestTokens(t.children) + [End]
  }

  function ForestTokens(ts: seq<Tree>): seq<Token>
    decreases ts, 0
  {
    if ts == [] then [] else TreeTokens(ts[0]) + ForestTokens(ts[1..])
  }

  function StripNops(toks: seq<Token>): seq<Token> {
    if toks == [] then []
    else if toks[0] == Nop then StripNops(toks[1..])
    else [toks[0]] + StripNops(toks[1..])
  }

  // --- the loop on tokens --------------------------------------------------------------------

  function TokenTurn(strings: seq<byte>, size: nat, p: Parser, tok: Token, next: nat): Turn
    requires CurrOk(p)
  {
    match tok
    case Begin(name) =>
      (match BeginNode(p, name, size)
       case None => Stopped
       case Some(p') => More(p', next))
    case End => if p.curr.None? then Strayed else More(EndNode(p), next)
    case Property(prop) =>
      if p.curr.None? || CString(strings, prop.nameOff).None? then Strayed
      else More(AddProperty(p, CString(strings, prop.nameOff).value, prop.value, size), next)
    case Nop => More(p, next)
    case Fin => if p.curr.Some? then Stopped else Done(p)
  }

  lemma TokenKeepsOk(strings: seq<byte>, size: nat, p: Parser, tok: Token, next: nat)
    requires ParserOk(p)
    ensures var t := TokenTurn(strings, size, p, tok, next); t.More? ==> ParserOk(t.p)
  {
    hide CString, Copied, LastSibling, BeginNode;
    if tok.Begin? && BeginNode(p, tok.name, size).Some? {
      BeginKeepsOk(p, tok.name, size);
    }
  }

  function RunTokens(strings: seq<byte>, size: nat, p: Parser, toks: seq<Token>): Turn
    requires ParserOk(p)
    decreases toks
  {
    if toks == [] then More(p, 0)
    else
      TokenKeepsOk(strings, size, p, toks[0], 0);
      match TokenTurn(strings, size, p, toks[0], 0)
      case More(p', _) => RunTokens(strings, size, p', toks[1..])
      case other => other
  }

  // --- bytes to tokens -----------------------------------------------------------------------

  lemma ReadU32Back(bytes: seq<byte>, off: nat, x: nat)
    requires off + 4 <= |bytes| && bytes[off..off + 4] == U32(x) && x < MAX_BLOB
    ensures ReadU32(bytes, off) == x
  {
    hide Flip32, Little, Big, BigBytes;
    Flip32Load(bytes[off..off + 4]);
    BytePowers();
    BytesRoundTrip(x, 4);
  }

  /** A string followed by its NUL is read back. */
  lemma {:induction false} CStringBack(bytes: seq<byte>, off: nat, name: seq<byte>)
    requires 0 !in name && off + |name| + 1 <= |bytes| && bytes[off..off + |name| + 1] == name + [0]
    ensures CString(bytes, off) == Some(name)
    decreases |name|
  {
    assert bytes[off] == (name + [0])[0];
    if name != [] {
      assert bytes[off + 1..off + |name| + 1] == (name + [0])[1..] == name[1..] + [0];
      CStringBack(bytes, off + 1, name[1..]);
      assert [name[0]] + name[1..] == name;
    }
  }

  lemma Part<T>(a: seq<T>, off: nat, whole: seq<T>, i: nat, j: nat)
    requires off + |whole| <= |a| && a[off..off + |whole|] == whole && i <= j <= |whole|
    ensures a[off + i..off + j] == whole[i..j]
  {
    forall k | 0 <= k < j - i
      ensures a[off + i..off + j][k] == whole[i..j][k]
    {
      assert whole[i + k] == a[off..off + |whole|][i + k];
    }
  }

  /** One turn of the loop at an encoded token is the step of that token. */
  lemma TurnOnToken(bytes: seq<byte>, strings: seq<byte>, size: nat, p: Parser, off: nat, tok: Token)
    requires |bytes| <= MAX_BLOB && CurrOk(p) && TokenOk(strings, tok)
    requires off + |Encode(strings, tok)| <= |bytes|
    requires bytes[off..off + |Encode(strings, tok)|] == Encode(strings, tok)
    ensures LoopTurn(bytes, strings, size, p, off)
         == TokenTurn(strings, size, p, tok, off + |Encode(strings, tok)|)
  {
    hide CString, Padded, Copied, LastSibling, BeginNode, AddProperty, EndNode, U32, Zeros, ReadU32, BeginTurn,
         PropertyTurn;
    var e := Encode(strings, tok);
    var head := bytes[off..off + |e|];
    assert head[..4] == bytes[off..off + 4];
    match tok
    case Begin(name) =>
      assert e[..4] == U32(1);
      ReadU32Back(bytes, off, 1);
      BeginOnToken(bytes, strings, size, p, off, name);
    case End =>
      assert e[..4] == U32(2);
      ReadU32Back(bytes, off, 2);
    case Property(prop) =>
      assert e[..4] == U32(3);
      ReadU32Back(bytes, off, 3);
      if p.curr.Some? {
        PropertyOnToken(bytes, strings, size, p, off, prop);
      }
    case Nop =>
      assert e[..4] == U32(4);
      ReadU32Back(bytes, off, 4);
    case Fin =>
      assert e[..4] == U32(9);
      ReadU32Back(bytes, off, 9);
  }

  lemma BeginOnToken(bytes: seq<byte>, strings: seq<byte>, size: nat, p: Parser, off: nat, name: seq<byte>)
    requires |bytes| <= MAX_BLOB && CurrOk(p) && TokenOk(strings, Begin(name))
    requires var e := Encode(strings, Begin(name)); off + |e| <= |bytes| && bytes[off..off + |e|] == e
    ensures BeginTurn(bytes, size, p, off + 4)
         == TokenTurn(strings, size, p, Begin(name), off + |Encode(strings, Begin(name))|)
  {
    hide Padded, Copied, LastSibling, BeginNode, U32, Zeros;
    var e := Encode(strings, Begin(name));
    PaddedMeaning(|name| + 1);
    Part(bytes, off, e, 4, 4 + |name| + 1);
    assert e[4..4 + |name| + 1] == name + [0];
    CStringBack(bytes, off + 4, name);
  }

  lemma PropertyOnToken(bytes: seq<byte>, strings: seq<byte>, size: nat, p: Parser, off: nat, prop: TreeProp)
    requires |bytes| <= MAX_BLOB && p.curr.Some? && CurrOk(p) && TokenOk(strings, Property(prop))
    requires var e := Encode(strings, Property(prop)); off + |e| <= |bytes| && bytes[off..off + |e|] == e
    ensures PropertyTurn(bytes, strings, size, p, off + 4)
         == TokenTurn(strings, size, p, Property(prop), off + |Encode(strings, Property(prop))|)
  {
    hide CString, Padded, Copied, AddProperty, U32, Zeros, ReadU32;
    var e, n := Encode(strings, Property(prop)), |prop.value|;
    PaddedMeaning(n);
    Part(bytes, off, e, 4, 8);
    Part(bytes, off, e, 8, 12);
    Part(bytes, off, e, 12, 12 + n);
    assert e[4..8] == U32(n) && e[8..12] == U32(prop.nameOff) && e[12..12 + n] == prop.value;
    ReadU32Back(bytes, off + 4, n);
    ReadU32Back(bytes, off + 8, prop.nameOff);
  }

  /** The byte loop on an encoded token sequence does what the tokens say, to the end of the run. */
  lemma {:induction false} LoopOnTokens(
    bytes: seq<byte>, strings: seq<byte>, size: nat, p: Parser, off: nat, toks: seq<Token>)
    requires |bytes| <= MAX_BLOB && ParserOk(p) && off <= |bytes|
    requires forall tok :: tok in toks ==> TokenOk(strings, tok)
    requires EncodeAll(strings, toks) <= bytes[off..]
    requires !RunTokens(strings, size, p, toks).More?
    ensures Loop(bytes, strings, size, p, off) == RunTokens(strings, size, p, toks)
    decreases toks
  {
    hide CString, LoopTurn, TokenTurn, Encode, ParserOk;
    var e, rest := Encode(strings, toks[0]), EncodeAll(strings, toks[1..]);
    assert bytes[off..][..|e|] == e && bytes[off..off + |e|] == bytes[off..][..|e|];
    OkIsCurrOk(p);
    TurnOnToken(bytes, strings, size, p, off, toks[0]);
    TokenNext(strings, size, p, toks[0], off + |e|);
    TokenKeepsOk(strings, size, p, toks[0], 0);
    if TokenTurn(strings, size, p, toks[0], 0).More? {
      assert bytes[off + |e|..] == bytes[off..][|e|..];
      assert rest <= bytes[off + |e|..];
      LoopOnTokens(bytes, strings, size, TokenTurn(strings, size, p, toks[0], 0).p, off + |e|, toks[1..]);
    }
  }

  lemma OkIsCurrOk(p: Parser)
    requires ParserOk(p)
    ensures CurrOk(p)
  {
  }

  /** The next offset is all that a token's step takes from it. */
  lemma TokenNext(strings: seq<byte>, size: nat, p: Parser, tok: Token, next: nat)
    requires ParserOk(p)
    ensures var t, t' := TokenTurn(strings, size, p, tok, 0), TokenTurn(strings, size, p, tok, next);
            if t.More? then t' == More(t.p, next) else t' == t
  {
    hide CString, Copied, BeginNode, AddProperty, EndNode;
  }

  // --- NOPs and concatenation ----------------------------------------------------------------

  /** FDT_NOP anywhere makes no difference. */
  lemma {:induction false} NopsDontMatter(strings: seq<byte>, size: nat, p: Parser, toks: seq<Token>)
    requires ParserOk(p)
    ensures RunTokens(strings, size, p, toks) == RunTokens(strings, size, p, StripNops(toks))
    decreases toks
  {
    hide CString, ParserOk, BeginNode, AddProperty, EndNode;
    if toks != [] {
      OkIsCurrOk(p);
      TokenKeepsOk(strings, size, p, toks[0], 0);
      var t := TokenTurn(strings, size, p, toks[0], 0);
      if t.More? {
        NopsDontMatter(strings, size, t.p, toks[1..]);
      }
      if toks[0] != Nop {
        assert ([toks[0]] + StripNops(toks[1..]))[1..] == StripNops(toks[1..]);
      }
    }
  }

  lemma {:induction false} RunConcat(strings: seq<byte>, size: nat, p: Parser, a: seq<Token>, b: seq<Token>)
    requires ParserOk(p) && RunTokens(strings, size, p, a).More?
    ensures ParserOk(RunTokens(strings, size, p, a).p)
    ensures RunTokens(strings, size, p, a + b) == RunTokens(strings, size, RunTokens(strings, size, p, a).p, b)
    decreases a
  {
    hide CString, ParserOk, TokenTurn;
    if a == [] {
      assert a + b == b;
    } else {
      OkIsCurrOk(p);
      TokenKeepsOk(strings, size, p, a[0], 0);
      assert (a + b)[1..] == a[1..] + b;
      RunConcat(strings, size, TokenTurn(strings, size, p, a[0], 0).p, a[1..], b);
    }
  }
}
