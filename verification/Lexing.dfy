/** The tokenizer (src/modules/script/lexer.cpp), as far as JSON texts need it. */
module Lexing {
  import opened Chunks

  /** The token types JSON::unserialize tells apart; every other type makes it throw. */
  datatype Kind = CompoundL | CompoundR | Str | Number | Seperator | JsonAssign | OpSub | SubscrL | SubscrR | Null | Eof | Other

  datatype Token = Token(kind: Kind, content: seq<Byte>)

  // ---------- characters ----------

  const EOF: int := -1
  const QUOTE: Byte := 34
  const BACKSLASH: Byte := 92

  /** A character is a signed byte, so byte 0xFF reads as EOF. */
  function Signed(b: Byte): int {
    if b < 128 then b else b - 256
  }

  function Unsigned(ch: int): Byte
    requires -128 <= ch < 128
  {
    if ch < 0 then ch + 256 else ch
  }

  predicate IsSpace(ch: int) {
    ch == 32 || 9 <= ch <= 13
  }

  predicate IsDigit(ch: int) {
    48 <= ch <= 57
  }

  predicate IsAlpha(ch: int) {
    65 <= ch <= 90 || 97 <= ch <= 122
  }

  /** The character at position p of the text; before it there is a space, behind it EOF. */
  function CharAt(c: seq<Byte>, p: int): (ch: int)
    requires -1 <= p
    ensures -128 <= ch < 128
  {
    if p == -1 then 32 else if p < |c| then Signed(c[p]) else EOF
  }

  /** The tokenizer looks at position p: `last` is that character, `offset` where the next one is read. */
  predicate At(c: seq<Byte>, p: int, last: int, offset: nat) {
    -1 <= p <= |c| && last == CharAt(c, p) && offset == Min(p + 1, |c|)
  }

  function After(c: seq<Byte>, p: int): int {
    if p < |c| then p + 1 else p
  }

  method NextC(c: seq<Byte>, offset: nat, ghost p: int) returns (ch: int, next: nat)
    requires -1 <= p <= |c| && offset == Min(p + 1, |c|)
    ensures At(c, After(c, p), ch, next)
  {
    if offset >= |c| {
      return EOF, offset;
    }
    return Signed(c[offset]), offset + 1;
  }

  // ---------- strings ----------

  function Escape(b: Byte): (s: seq<Byte>)
    ensures |s| == if b == BACKSLASH then 2 else 1
  {
    match b
    case 110 => [10]
    case 92 => [92, 92]
    case 116 => [9]
    case 114 => [13]
    case 98 => [8]
    case 102 => [12]
    case 118 => [11]
    case _ => [b]
  }

  /** What the loop over a string makes of the text behind the opening quote: the content, and
      the position behind the closing quote. `st` was read up to p, the last character being `prev`. */
  function Scan(c: seq<Byte>, p: nat, st: seq<Byte>, prev: int, quote: int): (r: (seq<Byte>, nat))
    requires p <= |c| && (prev == Signed(BACKSLASH) ==> st != [])
    ensures p <= r.1 <= |c|
    decreases |c| - p
  {
    if p == |c| then (st, p)
    else if Signed(c[p]) == EOF then (st, p + 1)
    else if prev == Signed(BACKSLASH) then Scan(c, p + 1, st[..|st| - 1] + Escape(c[p]), Signed(c[p]), quote)
    else if Signed(c[p]) == quote then (st, p + 1)
    else Scan(c, p + 1, st + [c[p]], Signed(c[p]), quote)
  }

  /** The branch of the tokenizer for a string. */
  method LexString(c: seq<Byte>, last: int, offset: nat, ghost p: nat) returns (st: seq<Byte>, last': int, offset': nat, ghost p': nat)
    requires p < |c| && At(c, p, last, offset)
    ensures (st, p') == Scan(c, p + 1, [], 0, last) && At(c, p', last', offset')
  {
    var strTok := last;
    st := [];
    last', offset' := NextC(c, offset, p);
    p' := p + 1;
    var thisChar := 0;
    while last' != EOF
      invariant p < p' <= |c| && At(c, p', last', offset')
      invariant thisChar == Signed(BACKSLASH) ==> st != []
      invariant Scan(c, p', st, thisChar, strTok) == Scan(c, p + 1, [], 0, strTok)
      decreases |c| - p'
    {
      if thisChar == Signed(BACKSLASH) {
        st := st[..|st| - 1] + Escape(Unsigned(last'));
      } else {
        if last' == strTok {
          break;
        }
        st := st + [Unsigned(last')];
      }
      thisChar := last';
      last', offset' := NextC(c, offset', p');
      p' := p' + 1;
    }
    last', offset' := NextC(c, offset', p');
    p' := After(c, p');
  }

  /** Free of quotes, backslashes and byte 0xFF. */
  predicate Plain(name: seq<Byte>) {
    forall i :: 0 <= i < |name| ==> name[i] != QUOTE && name[i] != BACKSLASH && name[i] != 255
  }

  /** The text at p is the name and a closing quote, and goes on behind it. */
  predicate Quoted(c: seq<Byte>, p: nat, name: seq<Byte>) {
    p + |name| + 1 < |c| && c[p..p + |name|] == name && c[p + |name|] == QUOTE
  }

  lemma {:induction false} ScanPlain(c: seq<Byte>, p: nat, name: seq<Byte>, i: nat, prev: int)
    requires Quoted(c, p, name) && Plain(name) && i <= |name| && prev != Signed(BACKSLASH)
    ensures Scan(c, p + i, name[..i], prev, Signed(QUOTE)) == (name, p + |name| + 1)
    decreases |name| - i
  {
    if i < |name| {
      assert c[p + i] == c[p..p + |name|][i] == name[i];
      assert name[..i + 1] == name[..i] + [name[i]];
      ScanPlain(c, p, name, i + 1, Signed(name[i]));
    } else {
      assert name[..i] == name;
    }
  }

  // ---------- what a text can pay for ----------

  /** The characters that are not quotes. */
  function Weight(s: seq<Byte>): nat {
    if s == [] then 0 else Weight(s[..|s| - 1]) + if s[|s| - 1] == QUOTE then 0 else 1
  }

  lemma {:induction false} WeightConcat(a: seq<Byte>, b: seq<Byte>)
    ensures Weight(a + b) == Weight(a) + Weight(b)
  {
    if b == [] {
      assert a + b == a;
    } else {
      assert (a + b)[..|a + b| - 1] == a + b[..|b| - 1];
      WeightConcat(a, b[..|b| - 1]);
    }
  }

  lemma WeightOne(b: Byte)
    ensures Weight([b]) == if b == QUOTE then 0 else 1
  {
    assert [b][..0] == [];
  }

  lemma WeightAt(c: seq<Byte>, p: nat, q: nat)
    requires p < q <= |c|
    ensures Weight(c[p..q]) == (if c[p] == QUOTE then 0 else 1) + Weight(c[p + 1..q])
  {
    assert c[p..q] == [c[p]] + c[p + 1..q];
    WeightConcat([c[p]], c[p + 1..q]);
    WeightOne(c[p]);
  }

  lemma {:induction false} WeightAll(s: seq<Byte>)
    requires forall i :: 0 <= i < |s| ==> s[i] != QUOTE
    ensures Weight(s) == |s|
  {
    if s != [] { WeightAll(s[..|s| - 1]); }
  }

  lemma WeightEscape(b: Byte)
    ensures Weight(Escape(b)) == if b == QUOTE then 0 else if b == BACKSLASH then 2 else 1
  {
    if b == BACKSLASH {
      WeightAll(Escape(b));
    } else {
      WeightOne(Escape(b)[0]);
    }
  }

  lemma ScanNext(c: seq<Byte>, p: nat, st: seq<Byte>, prev: int, quote: int)
    requires p <= |c| && (prev == Signed(BACKSLASH) ==> st != [])
    ensures Scan(c, p, st, prev, quote) ==
              if p == |c| then (st, p)
              else if Signed(c[p]) == EOF then (st, p + 1)
              else if prev == Signed(BACKSLASH) then Scan(c, p + 1, st[..|st| - 1] + Escape(c[p]), Signed(c[p]), quote)
              else if Signed(c[p]) == quote then (st, p + 1)
              else Scan(c, p + 1, st + [c[p]], Signed(c[p]), quote)
  {
  }

  /** A string that ends before the text does weighs no more than what it was read from, and as
      much only when nothing was escaped. */
  lemma {:induction false} ScanWeighs(c: seq<Byte>, p: nat, st: seq<Byte>, prev: int, quote: int)
    requires p <= |c| && (prev == Signed(BACKSLASH) ==> st != [] && st[|st| - 1] == BACKSLASH)
    requires Scan(c, p, st, prev, quote).1 < |c|
    ensures var (end, q) := Scan(c, p, st, prev, quote);
            var most := Weight(st) + Weight(c[p..q]) - (if prev == Signed(BACKSLASH) then 1 else 0);
            && p < q && Weight(end) <= most
            && (quote == Signed(QUOTE) && prev != Signed(BACKSLASH) && Weight(end) == most ==>
                  end == st + c[p..q - 1] && Plain(c[p..q - 1]))
    decreases |c| - p
  {
    hide Escape, Weight, Scan;
    ScanNext(c, p, st, prev, quote);
    var (end, q) := Scan(c, p, st, prev, quote);
    WeightAt(c, p, p + 1);
    assert c[p + 1..p + 1] == [];
    WeightNone();
    if Signed(c[p]) == EOF {
      assert q == p + 1;
    } else if prev == Signed(BACKSLASH) {
      EscapeWeighs(st, c[p]);
      ScanWeighs(c, p + 1, st[..|st| - 1] + Escape(c[p]), Signed(c[p]), quote);
      WeightAt(c, p, q);
    } else if Signed(c[p]) != quote {
      WeightConcat(st, [c[p]]);
      WeightOne(c[p]);
      ScanWeighs(c, p + 1, st + [c[p]], Signed(c[p]), quote);
      WeightAt(c, p, q);
      assert c[p..q - 1] == [c[p]] + c[p + 1..q - 1];
      assert st + [c[p]] + c[p + 1..q - 1] == st + c[p..q - 1];
    } else {
      assert q == p + 1 && c[p..q - 1] == [];
    }
  }

  lemma WeightNone()
    ensures Weight([]) == 0
  {
  }

  lemma EscapeWeighs(st: seq<Byte>, b: Byte)
    requires st != [] && st[|st| - 1] == BACKSLASH
    ensures var after := st[..|st| - 1] + Escape(b);
            && after != [] && (Signed(b) == Signed(BACKSLASH) ==> after[|after| - 1] == BACKSLASH)
            && Weight(after) == Weight(st) - 1 + if b == QUOTE then 0 else if b == BACKSLASH then 2 else 1
  {
    var front := st[..|st| - 1];
    assert st == front + [BACKSLASH];
    hide Weight;
    WeightConcat(front, [BACKSLASH]);
    WeightOne(BACKSLASH);
    WeightConcat(front, Escape(b));
    WeightEscape(b);
  }

  /** What a text has to hold for a string: one character more than its weight when it is not plain. */
  function NameCost(s: seq<Byte>): nat {
    Weight(s) + if Plain(s) then 0 else 1
  }

  /** A string read from its opening quote at p on costs no more than the text it was read from. */
  lemma StringCost(c: seq<Byte>, p: nat, quote: int)
    requires p < |c| && CharAt(c, p) == quote && (quote == 34 || quote == 39)
    requires Scan(c, p + 1, [], 0, quote).1 < |c|
    ensures var (end, q) := Scan(c, p + 1, [], 0, quote); NameCost(end) <= Weight(c[p..q])
  {
    hide Scan, Weight;
    ScanWeighs(c, p + 1, [], 0, quote);
    WeightNone();
    var (end, q) := Scan(c, p + 1, [], 0, quote);
    WeightAt(c, p, q);
    assert [] + c[p + 1..q - 1] == c[p + 1..q - 1];
  }

  /** A name comes back from between its quotes exactly when it is plain. */
  lemma QuotedName(c: seq<Byte>, p: nat, name: seq<Byte>)
    requires Quoted(c, p, name)
    ensures Scan(c, p, [], 0, Signed(QUOTE)) == (name, p + |name| + 1) <==> Plain(name)
  {
    if Plain(name) {
      assert name[..0] == [];
      ScanPlain(c, p, name, 0, 0);
    }
    if Scan(c, p, [], 0, Signed(QUOTE)) == (name, p + |name| + 1) {
      hide Scan, Weight;
      ScanWeighs(c, p, [], 0, Signed(QUOTE));
      WeightNone();
      WeightOne(QUOTE);
      WeightConcat(name, [QUOTE]);
      assert c[p..p + |name| + 1] == name + [QUOTE];
    }
  }

  /** The name made of a backslash and the letter b comes back as one backspace. */
  lemma BackslashLost()
    ensures Scan([92, 98, 34, 58], 0, [], 0, Signed(QUOTE)) == ([8], 3)
  {
    var c: seq<Byte> := [92, 98, 34, 58];
    assert Scan(c, 2, [8], 98, 34) == ([8], 3);
    assert Scan(c, 1, [92], 92, 34) == Scan(c, 2, [8], 98, 34) by { assert [92][..0] + Escape(98) == [8]; }
    assert [] + [c[0]] == [92];
  }

  /** What a quoted backslash and one more character read as. */
  lemma EscapesRead(b: Byte, text: seq<Byte>)
    requires text == [QUOTE, BACKSLASH, b, QUOTE] && b != BACKSLASH && Signed(b) != EOF
    ensures Scan(text, 1, [], 0, Signed(QUOTE)) ==
              ([if b == 'n' as int then 10 else if b == 't' as int then 9 else if b == 'r' as int then 13
                else if b == 'b' as int then 8 else if b == 'f' as int then 12 else if b == 'v' as int then 11 else b], 4)
  {
    var one := Escape(b);
    assert [] + [BACKSLASH] == [BACKSLASH] && [BACKSLASH][..0] + one == one;
    assert Scan(text, 3, one, Signed(b), Signed(QUOTE)) == (one, 4);
    assert Scan(text, 2, [BACKSLASH], Signed(BACKSLASH), Signed(QUOTE)) == (one, 4);
  }

  // ---------- the texts a token list spells ----------

  predicate Digits(s: seq<Byte>) {
    s != [] && forall i :: 0 <= i < |s| ==> IsDigit(Signed(s[i]))
  }

  function Lexeme(t: Token): seq<Byte> {
    match t.kind
    case CompoundL => [123]
    case CompoundR => [125]
    case Str => [QUOTE] + t.content + [QUOTE]
    case Number => t.content
    case Seperator => [44]
    case JsonAssign => [58]
    case OpSub => [45]
    case _ => []
  }

  predicate Spellable(t: Token) {
    match t.kind
    case Str => Plain(t.content)
    case Number => Digits(t.content)
    case CompoundL => t.content == [123]
    case CompoundR => t.content == [125]
    case Seperator => t.content == [44]
    case JsonAssign => t.content == [58]
    case OpSub => t.content == [45]
    case _ => false
  }

  /** The tokens can be told apart: a number is not followed by a number, and a minus sign is. */
  predicate Separable(toks: seq<Token>) {
    && (forall i :: 0 <= i < |toks| ==> Spellable(toks[i]))
    && (forall i :: 0 <= i < |toks| - 1 && toks[i].kind == Number ==> toks[i + 1].kind != Number)
    && (forall i :: 0 <= i < |toks| && toks[i].kind == OpSub ==> i + 1 < |toks| && toks[i + 1].kind == Number)
    && (forall i :: 0 <= i < |toks| && toks[i].kind == Str ==> i + 1 < |toks|)
  }

  function Spell(toks: seq<Token>): seq<Byte> {
    if toks == [] then [] else Lexeme(toks[0]) + Spell(toks[1..])
  }

  /** What a text has to hold for a token. */
  function Cost(t: Token): nat {
    match t.kind
    case Str => NameCost(t.content)
    case Number => NameCost(t.content)
    case CompoundL => 1
    case CompoundR => 1
    case Seperator => 1
    case JsonAssign => 1
    case OpSub => 1
    case _ => 0
  }

  function Costs(list: seq<Token>): nat {
    if list == [] then 0 else Costs(list[..|list| - 1]) + Cost(list[|list| - 1])
  }

  lemma CostsPush(list: seq<Token>, t: Token)
    ensures Costs(list + [t]) == Costs(list) + Cost(t)
  {
    assert (list + [t])[..|list|] == list;
  }

  lemma {:induction false} CostsPrefix(list: seq<Token>, i: nat, j: nat)
    requires i <= j <= |list|
    ensures Costs(list[..i]) <= Costs(list[..j])
  {
    if i < j {
      CostsPrefix(list, i, j - 1);
      assert list[..j] == list[..j - 1] + [list[j - 1]];
      CostsPush(list[..j - 1], list[j - 1]);
    }
  }

  /** The tokens read from c[p..p'] cost no more than that text weighs, but for a string that only
      the end of the text ended. */
  ghost predicate Paid(c: seq<Byte>, p: nat, p': nat, tokens: seq<Token>)
    requires p <= p' <= |c|
  {
    && |tokens| <= 1 && (tokens != [] && tokens[0].kind == Number ==> tokens[0].content != [])
    && (p' < |c| || tokens == [] || tokens[0].kind != Str ==> Costs(tokens) <= Weight(c[p..p']))
  }

  /** The same for all tokens up to p. */
  ghost predicate PaidSoFar(c: seq<Byte>, p: nat, list: seq<Token>)
    requires p <= |c|
  {
    && (forall i :: 0 <= i < |list| && list[i].kind == Number ==> list[i].content != [])
    && (Costs(list) <= Weight(c[..p])
        || (p == |c| && list != [] && list[|list| - 1].kind == Str && Costs(list[..|list| - 1]) <= Weight(c)))
  }

  lemma PaidNext(c: seq<Byte>, p: nat, p': nat, list: seq<Token>, tokens: seq<Token>)
    requires p < |c| && p <= p' <= |c| && PaidSoFar(c, p, list) && Paid(c, p, p', tokens)
    ensures PaidSoFar(c, p', list + tokens)
  {
    hide Weight, Costs;
    assert c[..p'] == c[..p] + c[p..p'];
    WeightConcat(c[..p], c[p..p']);
    assert c == c[..p] + c[p..];
    WeightConcat(c[..p], c[p..]);
    if tokens == [] {
      assert list + tokens == list;
    } else {
      assert tokens == [] + [tokens[0]];
      NoCosts();
      CostsPush([], tokens[0]);
      CostsPush(list, tokens[0]);
      assert list + tokens == list + [tokens[0]];
      assert (list + tokens)[..|list|] == list;
    }
  }

  lemma NoCosts()
    ensures Costs([]) == 0
  {
  }

  // ---------- the other branches of the tokenizer ----------

  predicate InNumber(ch: int) {
    IsDigit(ch) || ch == 46
  }

  /** The longest run of digits and points. */
  method LexNumber(c: seq<Byte>, last: int, offset: nat, ghost p: nat)
    returns (numStr: seq<Byte>, last': int, offset': nat, ghost p': nat)
    requires p < |c| && At(c, p, last, offset) && InNumber(last)
    ensures p < p' <= |c| && At(c, p', last', offset') && numStr == c[p..p']
    ensures forall i :: p <= i < p' ==> InNumber(CharAt(c, i))
    ensures !InNumber(last')
  {
    numStr, last', offset', p' := [], last, offset, p;
    while InNumber(last')
      invariant p <= p' <= |c| && At(c, p', last', offset') && numStr == c[p..p']
      invariant p' == p ==> InNumber(last')
      invariant forall i :: p <= i < p' ==> InNumber(CharAt(c, i))
      decreases |c| - p'
    {
      numStr := numStr + [Unsigned(last')];
      last', offset' := NextC(c, offset', p');
      p' := p' + 1;
    }
  }

  predicate InWord(ch: int) {
    IsAlpha(ch) || IsDigit(ch) || ch == 95
  }

  function Lower(s: seq<Byte>): (r: seq<Byte>)
    ensures |r| == |s|
  {
    seq(|s|, i requires 0 <= i < |s| => if 65 <= s[i] <= 90 then s[i] + 32 else s[i])
  }

  const NULL_WORD: seq<Byte> := [110, 117, 108, 108]
  const PUBLIC_WORD: seq<Byte> := [112, 117, 98, 108, 105, 99]
  const PRIVATE_WORD: seq<Byte> := [112, 114, 105, 118, 97, 116, 101]

  /** Identifiers and keywords; of the keywords only null is an own type here. */
  method LexWord(c: seq<Byte>, last: int, offset: nat, ghost p: nat)
    returns (token: Token, last': int, offset': nat, ghost p': nat)
    requires p < |c| && At(c, p, last, offset)
    ensures p < p' <= |c| && At(c, p', last', offset')
    ensures token.kind == Null || token.kind == Other
  {
    var word := [Unsigned(last)];
    var skipKeyWords := false;
    if last == 36 {
      word := [];
      skipKeyWords := true;
    }
    last', offset' := NextC(c, offset, p);
    p' := p + 1;
    while InWord(last')
      invariant p < p' <= |c| && At(c, p', last', offset')
      decreases |c| - p'
    {
      word := word + [Unsigned(last')];
      last', offset' := NextC(c, offset', p');
      p' := p' + 1;
    }
    if !skipKeyWords && last' == 58 && (word == PUBLIC_WORD || word == PRIVATE_WORD) {
      word := word + [Unsigned(last')];
      last', offset' := NextC(c, offset', p');
      p' := p' + 1;
    }
    token := Token(if !skipKeyWords && Lower(word) == NULL_WORD then Null else Other, word);
  }

  /** A comment to the end of the line. */
  method SkipLine(c: seq<Byte>, last: int, offset: nat, ghost p: nat) returns (last': int, offset': nat, ghost p': nat)
    requires p <= |c| && At(c, p, last, offset)
    ensures p <= p' <= |c| && At(c, p', last', offset')
  {
    last', offset' := NextC(c, offset, p);
    p' := After(c, p);
    while last' != EOF && last' != 10 && last' != 13
      invariant p <= p' <= |c| && At(c, p', last', offset')
      decreases |c| - p'
    {
      last', offset' := NextC(c, offset', p');
      p' := After(c, p');
    }
    last', offset' := NextC(c, offset', p');
    p' := After(c, p');
  }

  /** A comment up to its closing mark. */
  method SkipBlock(c: seq<Byte>, last: int, offset: nat, ghost p: nat) returns (last': int, offset': nat, ghost p': nat)
    requires p <= |c| && At(c, p, last, offset)
    ensures p <= p' <= |c| && At(c, p', last', offset')
  {
    var thisChar := last;
    last', offset' := NextC(c, offset, p);
    p' := After(c, p);
    while last' != EOF && !(thisChar == 42 && last' == 47)
      invariant p <= p' <= |c| && At(c, p', last', offset')
      decreases |c| - p'
    {
      thisChar := last';
      last', offset' := NextC(c, offset', p');
      p' := After(c, p');
    }
    last', offset' := NextC(c, offset', p');
    p' := After(c, p');
  }

  /** The operators of two characters; none of them means anything to JSON::unserialize. */
  predicate DoubleOperator(a: int, b: int) {
    || (a == 45 && b == 62) || (a == 60 && b == 61) || (a == 62 && b == 61) || (a == 33 && b == 61) || (a == 61 && b == 61)
    || (a == 38 && b == 38) || (a == 124 && b == 124) || (a == 43 && b == 43) || (a == 45 && b == 45)
    || (b == 61 && (a == 43 || a == 45 || a == 47 || a == 42 || a == 37 || a == 38 || a == 124 || a == 94))
  }

  function OperatorKind(ch: int): Kind {
    match ch
    case 44 => Seperator
    case 58 => JsonAssign
    case 123 => CompoundL
    case 125 => CompoundR
    case 91 => SubscrL
    case 93 => SubscrR
    case 45 => OpSub
    case _ => Other
  }

  // ---------- the tokenizer ----------

  ghost predicate Spelled(c: seq<Byte>, p: int, toks: seq<Token>, k: nat) {
    && k <= |toks| && Separable(toks)
    && if p == -1 then k == 0 && c == Spell(toks) else 0 <= p <= |c| && c[p..] == Spell(toks[k..])
  }

  lemma CutFront(c: seq<Byte>, p: nat, front: seq<Byte>, rest: seq<Byte>)
    requires p <= |c| && c[p..] == front + rest
    ensures p + |front| <= |c| && c[p..p + |front|] == front && c[p + |front|..] == rest
  {
    assert c[p..][..|front|] == front && c[p..][|front|..] == rest;
  }

  lemma SpellCons(toks: seq<Token>, k: nat)
    requires k < |toks|
    ensures Spell(toks[k..]) == Lexeme(toks[k]) + Spell(toks[k + 1..])
  {
    assert toks[k..][1..] == toks[k + 1..];
  }

  lemma SpellNext(c: seq<Byte>, p: nat, toks: seq<Token>, k: nat)
    requires Spelled(c, p, toks, k)
    ensures k == |toks| ==> p == |c|
    ensures k < |toks| ==>
              var n := |Lexeme(toks[k])|;
              n > 0 && p + n <= |c| && c[p..p + n] == Lexeme(toks[k]) && Spelled(c, p + n, toks, k + 1)
              && Signed(c[p]) == Signed(Lexeme(toks[k])[0]) == CharAt(c, p)
  {
    if k < |toks| {
      assert Spellable(toks[k]);
      hide Spell, Separable;
      SpellCons(toks, k);
      CutFront(c, p, Lexeme(toks[k]), Spell(toks[k + 1..]));
      assert c[p] == c[p..p + |Lexeme(toks[k])|][0];
    } else {
      assert toks[k..] == [];
    }
  }

  /** The first character of what comes next. */
  lemma SpellFirst(c: seq<Byte>, p: nat, toks: seq<Token>, k: nat)
    requires Spelled(c, p, toks, k)
    ensures if k == |toks| then CharAt(c, p) == EOF
            else if toks[k].kind == Number then IsDigit(CharAt(c, p))
            else CharAt(c, p) == match toks[k].kind case Str => 34 case CompoundL => 123 case CompoundR => 125
                                                    case Seperator => 44 case JsonAssign => 58 case _ => 45
    ensures k < |toks| && toks[k].kind.OpSub? ==> k + 1 < |toks| && toks[k + 1].kind.Number?
  {
    SpellNext(c, p, toks, k);
    if k < |toks| { assert Spellable(toks[k]); }
  }

  /** Past white space. */
  method SkipSpaces(c: seq<Byte>, last: int, offset: nat, ghost p: int, ghost toks: seq<Token>, ghost k: nat)
    returns (last': int, offset': nat, ghost p': int)
    requires At(c, p, last, offset)
    ensures At(c, p', last', offset') && !IsSpace(last') && p <= p'
    ensures Spelled(c, p, toks, k) ==> p' == Max(p, 0)
    ensures Spelled(c, p, toks, k) ==> Spelled(c, p', toks, k)
  {
    hide Separable, Spell;
    last', offset', p' := last, offset, p;
    if Spelled(c, p, toks, k) {
      if p == -1 {
        assert c[0..] == c && toks[0..] == toks;
        SpellFirst(c, 0, toks, k);
      } else {
        SpellFirst(c, p, toks, k);
      }
    }
    while IsSpace(last')
      invariant At(c, p', last', offset') && p <= p'
      invariant Spelled(c, p, toks, k) ==> p' == p || p' == 0
      invariant Spelled(c, p, toks, k) && p' >= 0 ==> !IsSpace(last')
      decreases |c| - p'
    {
      last', offset' := NextC(c, offset', p');
      p' := p' + 1;
    }
    assert c[0..] == c && toks[0..] == toks;
  }

  /** One token, or none for a comment. */
  method LexOne(c: seq<Byte>, last: int, offset: nat, ghost p: nat, ghost toks: seq<Token>, ghost k: nat)
    returns (tokens: seq<Token>, last': int, offset': nat, ghost p': nat)
    requires p < |c| && At(c, p, last, offset) && last != EOF
    ensures p < p' && At(c, p', last', offset')
    ensures Spelled(c, p, toks, k) ==> k < |toks| && tokens == [toks[k]] && Spelled(c, p', toks, k + 1)
    ensures Paid(c, p, p', tokens)
  {
    hide Separable, Spell, Scan, Paid;
    ghost var good := Spelled(c, p, toks, k);
    if good { SpellFirst(c, p, toks, k); SpellNext(c, p, toks, k); }
    if last == 34 || last == 39 {
      var st;
      st, last', offset', p' := LexString(c, last, offset, p);
      if good { StringRead(c, p, toks, k); }
      tokens := [Token(Str, st)];
      StringPaid(c, p, p', st);
    } else if last == 35 || last == 36 || last == 95 || IsAlpha(last) {
      var word;
      word, last', offset', p' := LexWord(c, last, offset, p);
      tokens := [word];
      OtherPaid(c, p, p', tokens);
    } else if InNumber(last) {
      var numStr;
      numStr, last', offset', p' := LexNumber(c, last, offset, p);
      if good { NumberRead(c, p, p', toks, k); }
      tokens := [Token(Number, numStr)];
      NumberPaid(c, p, p');
    } else {
      tokens, last', offset', p' := LexOperator(c, last, offset, p, toks, k);
    }
  }

  /** Comments, operators and everything else. */
  method LexOperator(c: seq<Byte>, last: int, offset: nat, ghost p: nat, ghost toks: seq<Token>, ghost k: nat)
    returns (tokens: seq<Token>, last': int, offset': nat, ghost p': nat)
    requires p < |c| && At(c, p, last, offset)
    ensures p < p' && At(c, p', last', offset')
    ensures Spelled(c, p, toks, k) && k < |toks| && toks[k].kind != Str && toks[k].kind != Number ==>
              tokens == [toks[k]] && Spelled(c, p', toks, k + 1)
    ensures last != 34 ==> Paid(c, p, p', tokens)
  {
    hide Separable, Spell, Paid;
    ghost var good := Spelled(c, p, toks, k) && k < |toks| && toks[k].kind != Str && toks[k].kind != Number;
    last', offset' := NextC(c, offset, p);
    p' := p + 1;
    if good { OperatorRead(c, p, toks, k); }
    tokens := [];
    if last == 47 && last' == 47 {
      last', offset', p' := SkipLine(c, last', offset', p');
    } else if last == 47 && last' == 42 {
      last', offset', p' := SkipBlock(c, last', offset', p');
    } else if DoubleOperator(last, last') {
      tokens := [Token(Other, [Unsigned(last), Unsigned(last')])];
      last', offset' := NextC(c, offset', p');
      p' := After(c, p');
    } else {
      tokens := [Token(OperatorKind(last), [Unsigned(last)])];
    }
    if last != 34 { OperatorPaid(c, p, p', tokens); }
  }

  lemma StringPaid(c: seq<Byte>, p: nat, p': nat, st: seq<Byte>)
    requires p < |c| && (CharAt(c, p) == 34 || CharAt(c, p) == 39)
    requires (st, p') == Scan(c, p + 1, [], 0, CharAt(c, p))
    ensures Paid(c, p, p', [Token(Str, st)])
  {
    hide Scan, Weight, Costs;
    OneCost(Token(Str, st));
    if p' < |c| { StringCost(c, p, CharAt(c, p)); }
  }

  lemma OneCost(t: Token)
    ensures Costs([t]) == Cost(t)
  {
    assert [t][..0] == [];
  }

  lemma NumberPaid(c: seq<Byte>, p: nat, p': nat)
    requires p < p' <= |c| && forall i :: p <= i < p' ==> InNumber(CharAt(c, i))
    ensures Paid(c, p, p', [Token(Number, c[p..p'])])
  {
    hide Weight, Costs;
    var s := c[p..p'];
    OneCost(Token(Number, s));
    forall i | 0 <= i < |s| ensures s[i] != QUOTE && s[i] != BACKSLASH && s[i] != 255 {
      assert InNumber(CharAt(c, p + i));
    }
  }

  lemma OtherPaid(c: seq<Byte>, p: nat, p': nat, tokens: seq<Token>)
    requires p <= p' <= |c| && |tokens| <= 1
    requires tokens != [] ==> tokens[0].kind == Null || tokens[0].kind == Other
    ensures Paid(c, p, p', tokens)
  {
    hide Weight, Costs;
    NoCosts();
    if tokens != [] {
      OneCost(tokens[0]);
      assert tokens == [tokens[0]];
    }
  }

  lemma OperatorPaid(c: seq<Byte>, p: nat, p': nat, tokens: seq<Token>)
    requires p < p' <= |c| && |tokens| <= 1 && c[p] != QUOTE
    requires tokens != [] ==> tokens[0].kind != Str && tokens[0].kind != Number
    ensures Paid(c, p, p', tokens)
  {
    hide Weight, Costs;
    WeightAt(c, p, p');
    NoCosts();
    if tokens != [] {
      OneCost(tokens[0]);
      assert tokens == [tokens[0]];
    }
  }

  lemma OperatorRead(c: seq<Byte>, p: nat, toks: seq<Token>, k: nat)
    requires Spelled(c, p, toks, k) && k < |toks| && toks[k].kind != Str && toks[k].kind != Number
    ensures p < |c| && Spelled(c, p + 1, toks, k + 1)
    ensures CharAt(c, p) != 47 && !DoubleOperator(CharAt(c, p), CharAt(c, p + 1))
    ensures Token(OperatorKind(CharAt(c, p)), [Unsigned(CharAt(c, p))]) == toks[k]
  {
    assert Spellable(toks[k]);
    SpellFirst(c, p, toks, k);
    SpellNext(c, p, toks, k);
    SpellFirst(c, p + 1, toks, k + 1);
  }

  /** Whatever the text, the tokenizer comes to its end; the text a token list spells gives the
      list back. */
  method Tokenize(c: seq<Byte>, ghost toks: seq<Token>) returns (list: seq<Token>)
    ensures c == Spell(toks) && Separable(toks) ==> list == toks + [Token(Eof, [])]
    ensures list != [] && list[|list| - 1] == Token(Eof, []) && PaidSoFar(c, |c|, list[..|list| - 1])
  {
    hide Separable, Spell, Spelled, Paid, PaidSoFar;
    ghost var good, k, p := c == Spell(toks) && Separable(toks), 0, -1;
    var last, offset := 32, 0;
    list := [];
    if good { SpelledAtStart(c, toks); }
    NothingPaid(c, 0);
    while true
      invariant At(c, p, last, offset) && PaidSoFar(c, Max(p, 0), list)
      invariant good ==> Spelled(c, p, toks, k) && k <= |toks| && list == toks[..k]
      decreases |c| - p
    {
      ghost var before := Max(p, 0);
      last, offset, p := SkipSpaces(c, last, offset, p, toks, k);
      PaidFurther(c, before, p, list);
      if good { SpelledEof(c, p, toks, k); }
      if last == EOF {
        PaidFurther(c, p, |c|, list);
        list := list + [Token(Eof, [])];
        break;
      }
      var tokens;
      before := p;
      tokens, last, offset, p := LexOne(c, last, offset, p, toks, k);
      PaidNext(c, before, p, list, tokens);
      list := list + tokens;
      k := k + 1;
    }
  }

  lemma NothingPaid(c: seq<Byte>, p: nat)
    requires p <= |c|
    ensures PaidSoFar(c, p, [])
  {
  }

  lemma PaidFurther(c: seq<Byte>, p: nat, p': nat, list: seq<Token>)
    requires p <= p' <= |c| && PaidSoFar(c, p, list)
    ensures PaidSoFar(c, p', list)
  {
    hide Weight, Costs;
    assert c[..p'] == c[..p] + c[p..p'];
    WeightConcat(c[..p], c[p..p']);
  }

  lemma SpelledAtStart(c: seq<Byte>, toks: seq<Token>)
    requires c == Spell(toks) && Separable(toks)
    ensures Spelled(c, -1, toks, 0)
  {
  }

  lemma SpelledEof(c: seq<Byte>, p: nat, toks: seq<Token>, k: nat)
    requires Spelled(c, p, toks, k)
    ensures CharAt(c, p) == EOF <==> k == |toks|
    ensures k <= |toks|
  {
    SpellFirst(c, p, toks, k);
  }

  lemma InsideQuotes(c: seq<Byte>, p: nat, name: seq<Byte>)
    requires p + |name| + 2 <= |c| && c[p..p + |name| + 2] == [QUOTE] + name + [QUOTE]
    ensures c[p + 1..p + 1 + |name|] == name && c[p + 1 + |name|] == QUOTE
  {
    var s := c[p..p + |name| + 2];
    forall i | 0 <= i <= |name| ensures c[p + 1 + i] == if i < |name| then name[i] else QUOTE {
      assert s[1 + i] == c[p + (1 + i)];
    }
  }

  lemma StringRead(c: seq<Byte>, p: nat, toks: seq<Token>, k: nat)
    requires Spelled(c, p, toks, k) && k < |toks| && toks[k].kind == Str
    ensures p < |c| && Scan(c, p + 1, [], 0, Signed(QUOTE)) == (toks[k].content, p + |Lexeme(toks[k])|)
  {
    hide Scan, Spell;
    var name := toks[k].content;
    assert Spellable(toks[k]);
    SpellNext(c, p, toks, k);
    SpellNext(c, p + |Lexeme(toks[k])|, toks, k + 1);
    InsideQuotes(c, p, name);
    QuotedName(c, p + 1, name);
  }

  lemma NumberRead(c: seq<Byte>, p: nat, p': nat, toks: seq<Token>, k: nat)
    requires Spelled(c, p, toks, k) && k < |toks| && toks[k].kind == Number
    requires p < p' <= |c| && (forall i :: p <= i < p' ==> InNumber(CharAt(c, i))) && !InNumber(CharAt(c, p'))
    ensures p' == p + |Lexeme(toks[k])| && c[p..p'] == toks[k].content
  {
    var n := |Lexeme(toks[k])|;
    SpellNext(c, p, toks, k);
    SpellFirst(c, p + n, toks, k + 1);
    assert Spellable(toks[k]);
    forall i | p <= i < p + n ensures IsDigit(CharAt(c, i)) {
      assert c[i] == c[p..p + n][i - p];
    }
  }
}
