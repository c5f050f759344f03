/** Printing an object of integers and parsing it back, as directories are stored
    (src/modules/script/JSON.cpp). */
module Json {
  import opened Chunks
  import opened Lexing

  type Name = seq<Byte>

  // ---------- numbers ----------

  function Decimal(n: nat): (s: seq<Byte>)
    ensures Digits(s)
  {
    if n < 10 then [48 + n] else Decimal(n / 10) + [48 + n % 10]
  }

  /** std::to_string. */
  function NumberText(v: int): seq<Byte> {
    if v < 0 then [45] + Decimal(-v) else Decimal(v)
  }

  function ParseDigits(s: seq<Byte>): nat
    requires forall i :: 0 <= i < |s| ==> IsDigit(Signed(s[i]))
  {
    if s == [] then 0
    else
      assert IsDigit(Signed(s[|s| - 1]));
      10 * ParseDigits(s[..|s| - 1]) + (s[|s| - 1] as int - 48)
  }

  lemma {:induction false} ParseDecimal(n: nat)
    ensures ParseDigits(Decimal(n)) == n
  {
    if n >= 10 {
      ParseDecimal(n / 10);
      assert Decimal(n)[..|Decimal(n)| - 1] == Decimal(n / 10);
    }
  }

  /** What std::stoi accepts without throwing. */
  const INT_MAX: nat := 0x7FFF_FFFF

  // ---------- printing ----------

  const COMMA: Byte := 44

  function ListText(list: seq<int>): seq<Byte> {
    if list == [] then []
    else if |list| == 1 then NumberText(list[0])
    else NumberText(list[0]) + [COMMA] + ListText(list[1..])
  }

  /** A list of one number prints as that number. */
  function ValueText(list: seq<int>): seq<Byte> {
    if |list| == 1 then NumberText(list[0]) else [91] + ListText(list) + [93]
  }

  function EntryText(name: Name, list: seq<int>): seq<Byte> {
    [QUOTE] + name + [QUOTE] + [58] + ValueText(list) + [COMMA]
  }

  function EntriesText(m: map<Name, seq<int>>, order: seq<Name>): seq<Byte>
    requires forall n :: n in order ==> n in m
  {
    if order == [] then []
    else EntriesText(m, order[..|order| - 1]) + EntryText(order[|order| - 1], m[order[|order| - 1]])
  }

  /** An entry of one number is the quoted name, a colon, the number and a comma; an entry of
      several has them in brackets. */
  lemma EntryExamples()
    ensures EntryText([97, 98], [-12]) == [34, 97, 98, 34, 58, 45, 49, 50, 44]
    ensures EntryText([97], [3, 4]) == [34, 97, 34, 58, 91, 51, 44, 52, 93, 44]
  {
    assert Decimal(12) == Decimal(1) + [50] && Decimal(1) == [49];
    assert [3, 4][1..] == [4];
    assert ListText([4]) == NumberText(4);
  }

  lemma EntriesPush(m: map<Name, seq<int>>, order: seq<Name>, name: Name)
    requires (forall n :: n in order ==> n in m) && name in m
    ensures EntriesText(m, order + [name]) == EntriesText(m, order) + EntryText(name, m[name])
  {
    assert (order + [name])[..|order|] == order;
  }

  /** The names walked over so far, each once. */
  ghost predicate Walked(all: set<Name>, left: set<Name>, order: seq<Name>) {
    && left <= all
    && (forall n :: n in order <==> n in all - left)
    && (forall i, j :: 0 <= i < j < |order| ==> order[i] != order[j])
  }

  lemma WalkOn(all: set<Name>, left: set<Name>, order: seq<Name>, name: Name)
    requires Walked(all, left, order) && name in left
    ensures Walked(all, left - {name}, order + [name])
  {
  }

  lemma EndsWithComma(m: map<Name, seq<int>>, order: seq<Name>)
    requires forall n :: n in order ==> n in m
    ensures order != [] ==> var t := EntriesText(m, order); t != [] && t[|t| - 1] == COMMA
  {
  }

  /** serialize: the entries in the order the map is walked in, without the last comma. */
  method Serialize(m: map<Name, seq<int>>) returns (out: seq<Byte>, ghost order: seq<Name>)
    ensures Walked(m.Keys, {}, order)
    ensures out == [123] + (if order == [] then [] else EntriesText(m, order)[..|EntriesText(m, order)| - 1]) + [125]
  {
    hide EntriesText, ValueText, Walked;
    out, order := [123], [];
    var left := m.Keys;
    WalkStart(m);
    while left != {}
      invariant left <= m.Keys && Walked(m.Keys, left, order) && forall n :: n in order ==> n in m
      invariant out == [123] + EntriesText(m, order)
      decreases |left|
    {
      var name :| name in left;
      var N := ValueText(m[name]);
      WalkOn(m.Keys, left, order, name);
      EntriesPush(m, order, name);
      out := out + ([QUOTE] + name + [QUOTE] + [58] + N + [COMMA]);
      order := order + [name];
      left := left - {name};
    }
    EndsWithComma(m, order);
    ghost var entries := EntriesText(m, order);
    if out[|out| - 1] == COMMA {
      out := out[..|out| - 1];
    }
    assert out == [123] + (if order == [] then [] else entries[..|entries| - 1]);
    out := out + [125];
  }

  lemma WalkStart(m: map<Name, seq<int>>)
    ensures Walked(m.Keys, m.Keys, []) && EntriesText(m, []) == []
  {
  }

  // ---------- the tokens of a printed object ----------

  const OPEN: Token := Token(CompoundL, [123])
  const CLOSE: Token := Token(CompoundR, [125])
  const ASSIGN: Token := Token(JsonAssign, [58])
  const COMMA_TOKEN: Token := Token(Seperator, [44])
  const MINUS: Token := Token(OpSub, [45])

  function NumberTokens(v: int): seq<Token> {
    if v < 0 then [MINUS, Token(Number, Decimal(-v))] else [Token(Number, Decimal(v))]
  }

  function EntryTokens(name: Name, v: int, end: Token): seq<Token> {
    [Token(Str, name), ASSIGN] + NumberTokens(v) + [end]
  }

  /** Every property is one number. */
  ghost predicate Flat(m: map<Name, seq<int>>) {
    forall n :: n in m ==> |m[n]| == 1
  }

  /** The tokens from entry k on. */
  function TokensFrom(m: map<Name, seq<int>>, order: seq<Name>, k: nat): seq<Token>
    requires k <= |order| && forall n :: n in order ==> n in m && |m[n]| == 1
    decreases |order| - k
  {
    if k == |order| then []
    else EntryTokens(order[k], m[order[k]][0], if k + 1 == |order| then CLOSE else COMMA_TOKEN) + TokensFrom(m, order, k + 1)
  }

  function TokensOf(m: map<Name, seq<int>>, order: seq<Name>): seq<Token>
    requires forall n :: n in order ==> n in m && |m[n]| == 1
  {
    [OPEN] + if order == [] then [CLOSE] else TokensFrom(m, order, 0)
  }

  lemma {:induction false} SpellConcat(a: seq<Token>, b: seq<Token>)
    ensures Spell(a + b) == Spell(a) + Spell(b)
  {
    if a == [] {
      assert a + b == b;
    } else {
      assert (a + b)[1..] == a[1..] + b;
      SpellConcat(a[1..], b);
    }
  }

  lemma SpellOne(t: Token)
    ensures Spell([t]) == Lexeme(t)
  {
    assert Spell([t][1..]) == [];
  }

  lemma SpellNumber(v: int)
    ensures Spell(NumberTokens(v)) == NumberText(v)
  {
    if v < 0 {
      assert NumberTokens(v) == [MINUS] + [Token(Number, Decimal(-v))];
      SpellConcat([MINUS], [Token(Number, Decimal(-v))]);
      SpellOne(MINUS);
      SpellOne(Token(Number, Decimal(-v)));
    } else {
      SpellOne(Token(Number, Decimal(v)));
    }
  }

  /** An entry without the comma. */
  function Body(name: Name, v: int): seq<Byte> {
    [QUOTE] + name + [QUOTE] + [58] + NumberText(v)
  }

  lemma SpellEntry(name: Name, v: int, end: Token)
    ensures Spell(EntryTokens(name, v, end)) == Body(name, v) + Lexeme(end)
    ensures EntryText(name, [v]) == Body(name, v) + [COMMA]
  {
    hide Spell, NumberText, NumberTokens;
    var str := Token(Str, name);
    assert EntryTokens(name, v, end) == (([str] + [ASSIGN]) + NumberTokens(v)) + [end];
    SpellConcat(([str] + [ASSIGN]) + NumberTokens(v), [end]);
    SpellConcat([str] + [ASSIGN], NumberTokens(v));
    SpellConcat([str], [ASSIGN]);
    SpellOne(str);
    SpellOne(ASSIGN);
    SpellOne(end);
    SpellNumber(v);
  }

  lemma Shift(a: seq<Byte>, b: seq<Byte>, c: seq<Byte>, d: seq<Byte>)
    ensures a + ((b + c) + d) == (a + (b + c)) + d
    ensures (a + (b + c))[..|a + (b + c)| - |c|] == a + b
  {
  }

  /** The entries up to k, printed, and the tokens from k on, spelled, are the printed object. */
  lemma {:induction false} SpellFrom(m: map<Name, seq<int>>, order: seq<Name>, k: nat)
    requires k < |order| && forall n :: n in order ==> n in m && |m[n]| == 1
    ensures var all := EntriesText(m, order);
            all != [] && EntriesText(m, order[..k]) + Spell(TokensFrom(m, order, k)) == all[..|all| - 1] + [125]
    decreases |order| - k
  {
    hide Spell, EntriesText, EntryText, Body, EntryTokens;
    var name, v := order[k], m[order[k]][0];
    assert m[name] == [v];
    assert order[..k + 1] == order[..k] + [name];
    EntriesPush(m, order[..k], name);
    var before := EntriesText(m, order[..k]);
    if k + 1 == |order| {
      assert order[..k + 1] == order;
      SpellEntry(name, v, CLOSE);
      FromLast(m, order, k);
      Shift(before, Body(name, v), [COMMA], []);
      Regroup(before, Body(name, v), [125]);
    } else {
      SpellEntry(name, v, COMMA_TOKEN);
      FromNext(m, order, k);
      SpellConcat(EntryTokens(name, v, COMMA_TOKEN), TokensFrom(m, order, k + 1));
      SpellFrom(m, order, k + 1);
      Shift(before, Body(name, v), [COMMA], Spell(TokensFrom(m, order, k + 1)));
    }
  }

  lemma Regroup(a: seq<Byte>, b: seq<Byte>, c: seq<Byte>)
    ensures a + (b + c) == (a + b) + c
  {
  }

  lemma FromLast(m: map<Name, seq<int>>, order: seq<Name>, k: nat)
    requires k + 1 == |order| && forall n :: n in order ==> n in m && |m[n]| == 1
    ensures TokensFrom(m, order, k) == EntryTokens(order[k], m[order[k]][0], CLOSE)
  {
  }

  lemma FromNext(m: map<Name, seq<int>>, order: seq<Name>, k: nat)
    requires k + 1 < |order| && forall n :: n in order ==> n in m && |m[n]| == 1
    ensures TokensFrom(m, order, k) == EntryTokens(order[k], m[order[k]][0], COMMA_TOKEN) + TokensFrom(m, order, k + 1)
  {
  }

  /** So the printed object is what its tokens spell. */
  lemma SpellObject(m: map<Name, seq<int>>, order: seq<Name>)
    requires forall n :: n in order ==> n in m && |m[n]| == 1
    ensures Spell(TokensOf(m, order)) ==
            [123] + (if order == [] then [] else EntriesText(m, order)[..|EntriesText(m, order)| - 1]) + [125]
  {
    hide Spell, EntriesText, TokensFrom;
    SpellOne(OPEN);
    SpellOne(CLOSE);
    if order == [] {
      SpellConcat([OPEN], [CLOSE]);
    } else {
      SpellConcat([OPEN], TokensFrom(m, order, 0));
      SpellFrom(m, order, 0);
      EntriesNone(m, order);
      var all := EntriesText(m, order);
      assert [123] + (all[..|all| - 1] + [125]) == [123] + all[..|all| - 1] + [125];
    }
  }

  lemma EntriesNone(m: map<Name, seq<int>>, order: seq<Name>)
    ensures EntriesText(m, order[..0]) == []
    ensures forall s: seq<Byte> :: EntriesText(m, order[..0]) + s == s
  {
  }

  lemma SeparableConcat(a: seq<Token>, b: seq<Token>)
    requires Separable(a) && Separable(b) && (a == [] || a[|a| - 1].kind != Number)
    ensures Separable(a + b)
  {
    hide Spellable;
    var s := a + b;
    forall i | 0 <= i < |s| ensures Spellable(s[i]) {
      if i < |a| { assert s[i] == a[i]; } else { assert s[i] == b[i - |a|]; }
    }
    forall i | 0 <= i < |s| - 1 && s[i].kind == Number ensures s[i + 1].kind != Number {
      if i < |a| { assert s[i] == a[i]; } else { assert s[i] == b[i - |a|]; }
    }
  }

  lemma EntrySeparable(name: Name, v: int, end: Token)
    requires Plain(name) && (end == CLOSE || end == COMMA_TOKEN)
    ensures Separable(EntryTokens(name, v, end))
  {
  }

  lemma {:induction false} FromSeparable(m: map<Name, seq<int>>, order: seq<Name>, k: nat)
    requires k <= |order| && forall n :: n in order ==> n in m && |m[n]| == 1 && Plain(n)
    ensures Separable(TokensFrom(m, order, k))
    decreases |order| - k
  {
    hide Separable, Decimal;
    if k < |order| {
      var end := if k + 1 == |order| then CLOSE else COMMA_TOKEN;
      EntrySeparable(order[k], m[order[k]][0], end);
      FromSeparable(m, order, k + 1);
      SeparableConcat(EntryTokens(order[k], m[order[k]][0], end), TokensFrom(m, order, k + 1));
    } else {
      NoneSeparable();
    }
  }

  lemma NoneSeparable()
    ensures Separable([]) && Separable([OPEN]) && Separable([CLOSE])
  {
  }

  lemma ObjectSeparable(m: map<Name, seq<int>>, order: seq<Name>)
    requires forall n :: n in order ==> n in m && |m[n]| == 1 && Plain(n)
    ensures Separable(TokensOf(m, order))
  {
    hide Separable, TokensFrom;
    NoneSeparable();
    FromSeparable(m, order, 0);
    SeparableConcat([OPEN], if order == [] then [CLOSE] else TokensFrom(m, order, 0));
  }

  // ---------- parsing ----------

  datatype NameEntry = NameEntry(content: Name, idx: nat, isArray: bool)

  /** What unserialize does with a text: it builds an object, or an assertion aborts the process,
      or it throws; nested objects and values that are not integers are not modelled. */
  datatype Parsed = Object(values: map<Name, seq<int>>) | Aborts | Throws | NotModelled

  /** The list of a property, grown to hold entry idx. */
  function Put(values: map<Name, seq<int>>, name: Name, idx: nat, v: int): map<Name, seq<int>> {
    var list := if name in values then values[name] else [];
    var grown := if |list| < idx + 1 then list + seq(idx + 1 - |list|, _ => 0) else list;
    values[name := grown[idx := v]]
  }

  predicate HasPoint(s: seq<Byte>) {
    exists i :: 0 <= i < |s| && s[i] == 46
  }

  predicate AllDigits(s: seq<Byte>) {
    forall i :: 0 <= i < |s| ==> IsDigit(Signed(s[i]))
  }

  /** Where the parser is in the tokens of a flat object: behind the first j tokens of entry k. */
  ghost predicate Inside(m: map<Name, seq<int>>, order: seq<Name>, rest: seq<Token>, k: nat, j: nat)
    requires forall n :: n in order ==> n in m && |m[n]| == 1
  {
    if order == [] then k == j == 0 && rest == [CLOSE, Token(Eof, [])]
    else
      && k < |order| && j < |EntryOf(m, order, k)|
      && rest == EntryOf(m, order, k)[j..] + TokensFrom(m, order, k + 1) + [Token(Eof, [])]
  }

  function EntryOf(m: map<Name, seq<int>>, order: seq<Name>, k: nat): seq<Token>
    requires k < |order| && forall n :: n in order ==> n in m && |m[n]| == 1
  {
    EntryTokens(order[k], m[order[k]][0], if k + 1 == |order| then CLOSE else COMMA_TOKEN)
  }

  predicate Small(v: int) {
    -(INT_MAX as int) <= v <= INT_MAX as int
  }

  /** The properties of the first k names. */
  function Sofar(m: map<Name, seq<int>>, order: seq<Name>, k: nat): map<Name, seq<int>>
    requires k <= |order| && forall n :: n in order ==> n in m
  {
    map n | n in order[..k] :: m[n]
  }

  /** What the parser holds there. */
  ghost predicate Holds(m: map<Name, seq<int>>, order: seq<Name>, k: nat, j: nat, values: map<Name, seq<int>>,
                        names: seq<NameEntry>, tokenIsValue: bool, negate: bool)
    requires forall n :: n in order ==> n in m && |m[n]| == 1
  {
    && k <= |order| && (forall n :: n in order[..k] ==> Small(m[n][0]))
    && if order == [] then values == map[] && names == [] && !tokenIsValue && !negate
       else
         && k < |order|
         && names == (if j == 0 then [] else [NameEntry(order[k], 0, false)])
         && (tokenIsValue <==> j >= 2) && (negate <==> j == 3 && m[order[k]][0] < 0)
         && (j < |EntryOf(m, order, k)| - 1 ==> values == Sofar(m, order, k))
         && (j == |EntryOf(m, order, k)| - 1 ==> values == Sofar(m, order, k)[order[k] := m[order[k]]] && Small(m[order[k]][0]))
  }

  lemma WalkedFacts(m: map<Name, seq<int>>, order: seq<Name>)
    requires Walked(m.Keys, {}, order) && Flat(m)
    ensures (forall n :: n in order ==> n in m && |m[n]| == 1) && forall n :: n in m ==> n in order
  {
  }

  lemma FromCons(m: map<Name, seq<int>>, order: seq<Name>, k: nat)
    requires k < |order| && forall n :: n in order ==> n in m && |m[n]| == 1
    ensures TokensFrom(m, order, k) == EntryOf(m, order, k) + TokensFrom(m, order, k + 1)
    ensures EntryOf(m, order, k)[0..] == EntryOf(m, order, k)
  {
  }

  lemma Opened(m: map<Name, seq<int>>, order: seq<Name>, list: seq<Token>)
    requires forall n :: n in order ==> n in m && |m[n]| == 1
    requires list == TokensOf(m, order) + [Token(Eof, [])]
    ensures list[0] == OPEN && Inside(m, order, list[1..], 0, 0)
  {
    hide TokensFrom, EntryTokens;
    if order != [] { EntrySize(m, order, 0); }
    if order == [] {
      assert list[1..] == [CLOSE, Token(Eof, [])];
    } else {
      assert list[1..] == TokensFrom(m, order, 0) + [Token(Eof, [])];
      FromCons(m, order, 0);
    }
  }

  /** The token that comes next, and where the parser is behind it. */
  lemma Expected(m: map<Name, seq<int>>, order: seq<Name>, list: seq<Token>, i: nat, k: nat, j: nat)
    requires forall n :: n in order ==> n in m && |m[n]| == 1
    requires i <= |list| && Inside(m, order, list[i..], k, j)
    ensures i < |list|
    ensures if order == [] then list[i] == CLOSE
            else
              && k < |order| && j < |EntryOf(m, order, k)| && list[i] == EntryOf(m, order, k)[j]
              && EntryLayout(m, order, k, j, list[i]) && |EntryOf(m, order, k)| == (if m[order[k]][0] < 0 then 5 else 4)
              && (j + 1 < |EntryOf(m, order, k)| ==> Inside(m, order, list[i + 1..], k, j + 1))
              && (j + 1 == |EntryOf(m, order, k)| && k + 1 < |order| ==> Inside(m, order, list[i + 1..], k + 1, 0))
  {
    hide TokensFrom;
    if order != [] {
      var rest, e, after := list[i..], EntryOf(m, order, k), TokensFrom(m, order, k + 1) + [Token(Eof, [])];
      assert rest == e[j..] + after;
      assert list[i] == rest[0] && list[i + 1..] == rest[1..];
      if j + 1 < |e| {
        assert rest[1..] == e[j + 1..] + after;
        assert e[j + 1..] + after == e[j + 1..] + TokensFrom(m, order, k + 1) + [Token(Eof, [])];
      } else if k + 1 < |order| {
        assert rest[1..] == after;
        FromCons(m, order, k + 1);
      }
    }
  }

  /** Token j of entry k. */
  ghost predicate EntryLayout(m: map<Name, seq<int>>, order: seq<Name>, k: nat, j: nat, token: Token)
    requires k < |order| && forall n :: n in order ==> n in m && |m[n]| == 1
  {
    var v := m[order[k]][0];
    if j == 0 then token == Token(Str, order[k])
    else if j == 1 then token == ASSIGN
    else if j == 2 && v < 0 then token == MINUS
    else if j == 2 || (j == 3 && v < 0) then token == Token(Number, Decimal(if v < 0 then -v else v))
    else token == if k + 1 == |order| then CLOSE else COMMA_TOKEN
  }

  /** How many tokens an entry has. */
  lemma EntrySize(m: map<Name, seq<int>>, order: seq<Name>, k: nat)
    requires k < |order| && forall n :: n in order ==> n in m && |m[n]| == 1
    ensures |EntryOf(m, order, k)| == if m[order[k]][0] < 0 then 5 else 4
  {
  }

  lemma HoldsAtStart(m: map<Name, seq<int>>, order: seq<Name>)
    requires forall n :: n in order ==> n in m && |m[n]| == 1
    ensures Holds(m, order, 0, 0, map[], [], false, false)
  {
    if order != [] { EntrySize(m, order, 0); }
  }

  lemma HoldsName(m: map<Name, seq<int>>, order: seq<Name>, k: nat, j: nat, values: map<Name, seq<int>>,
                  names: seq<NameEntry>, tokenIsValue: bool, negate: bool)
    requires forall n :: n in order ==> n in m && |m[n]| == 1
    requires order != [] && j == 0 && Holds(m, order, k, j, values, names, tokenIsValue, negate)
    ensures !tokenIsValue && Holds(m, order, k, 1, values, names + [NameEntry(order[k], 0, false)], tokenIsValue, false)
  {
    EntrySize(m, order, k);
  }

  lemma HoldsAssign(m: map<Name, seq<int>>, order: seq<Name>, k: nat, j: nat, values: map<Name, seq<int>>,
                    names: seq<NameEntry>, tokenIsValue: bool, negate: bool)
    requires forall n :: n in order ==> n in m && |m[n]| == 1
    requires order != [] && j == 1 && Holds(m, order, k, j, values, names, tokenIsValue, negate)
    ensures Holds(m, order, k, 2, values, names, true, negate)
  {
    EntrySize(m, order, k);
  }

  lemma HoldsMinus(m: map<Name, seq<int>>, order: seq<Name>, k: nat, j: nat, values: map<Name, seq<int>>,
                   names: seq<NameEntry>, tokenIsValue: bool, negate: bool)
    requires forall n :: n in order ==> n in m && |m[n]| == 1
    requires order != [] && j == 2 && Holds(m, order, k, j, values, names, tokenIsValue, negate) && m[order[k]][0] < 0
    ensures Holds(m, order, k, 3, values, names, tokenIsValue, true)
  {
    EntrySize(m, order, k);
  }

  lemma HoldsNumber(m: map<Name, seq<int>>, order: seq<Name>, k: nat, j: nat, values: map<Name, seq<int>>,
                    names: seq<NameEntry>, tokenIsValue: bool, negate: bool)
    requires forall n :: n in order ==> n in m && |m[n]| == 1
    requires order != [] && Holds(m, order, k, j, values, names, tokenIsValue, negate)
    requires j == if m[order[k]][0] < 0 then 3 else 2
    ensures tokenIsValue && names != [] && names[|names| - 1] == NameEntry(order[k], 0, false)
    ensures var v := m[order[k]][0];
            var text := Decimal(if v < 0 then -v else v);
            && !HasPoint(text) && AllDigits(text)
            && (ParseDigits(text) > INT_MAX <==> !Small(v))
            && (Small(v) ==>
                  var parsed := if negate then -(ParseDigits(text) as int) else ParseDigits(text);
                  Holds(m, order, k, j + 1, Put(values, order[k], 0, parsed), names, tokenIsValue, false))
  {
    var v := m[order[k]][0];
    EntrySize(m, order, k);
    ParseDecimal(if v < 0 then -v else v);
    assert m[order[k]] == [v];
    PutOne(values, order[k], v);
  }

  lemma PutOne(values: map<Name, seq<int>>, name: Name, v: int)
    requires name in values ==> |values[name]| == 1
    ensures Put(values, name, 0, v) == values[name := [v]]
  {
    var list := if name in values then values[name] else [];
    var grown := if |list| < 1 then list + seq(1 - |list|, _ => 0) else list;
    assert grown[0 := v] == [v];
  }

  lemma HoldsComma(m: map<Name, seq<int>>, order: seq<Name>, k: nat, j: nat, values: map<Name, seq<int>>,
                   names: seq<NameEntry>, tokenIsValue: bool, negate: bool)
    requires forall n :: n in order ==> n in m && |m[n]| == 1
    requires order != [] && Holds(m, order, k, j, values, names, tokenIsValue, negate)
    requires j == |EntryOf(m, order, k)| - 1 && k + 1 < |order|
    ensures names != [] && !names[|names| - 1].isArray
    ensures Holds(m, order, k + 1, 0, values, names[..|names| - 1], false, negate)
  {
    EntrySize(m, order, k);
    EntrySize(m, order, k + 1);
    assert order[..k + 1] == order[..k] + [order[k]];
  }

  lemma HoldsClose(m: map<Name, seq<int>>, order: seq<Name>, k: nat, j: nat, values: map<Name, seq<int>>,
                   names: seq<NameEntry>, tokenIsValue: bool, negate: bool)
    requires (forall n :: n in order ==> n in m && |m[n]| == 1) && forall n :: n in m ==> n in order
    requires Holds(m, order, k, j, values, names, tokenIsValue, negate)
    requires order != [] ==> j == |EntryOf(m, order, k)| - 1 && k + 1 == |order|
    ensures values == m && forall n :: n in m ==> Small(m[n][0])
  {
    if order != [] {
      EntrySize(m, order, k);
      assert order == order[..k] + [order[k]];
    }
  }

  // ---------- what an object costs ----------

  ghost function Sum(m: map<Name, nat>): nat {
    if m == map[] then 0
    else
      var n :| n in m;
      m[n] + Sum(m - {n})
  }

  lemma {:induction false} SumRemove(m: map<Name, nat>, n: Name)
    requires n in m
    ensures Sum(m) == m[n] + Sum(m - {n})
    decreases |m|
  {
    var o :| o in m && Sum(m) == m[o] + Sum(m - {o});
    if o != n {
      SumRemove(m - {o}, n);
      SumRemove(m - {n}, o);
      assert m - {o} - {n} == m - {n} - {o};
    }
  }

  lemma SumPut(m: map<Name, nat>, n: Name, x: nat)
    ensures Sum(m[n := x]) == Sum(m) - (if n in m then m[n] else 0) + x
  {
    SumRemove(m[n := x], n);
    assert m[n := x] - {n} == m - {n};
    if n in m {
      SumRemove(m, n);
    } else {
      assert m - {n} == m;
    }
  }

  /** A sum that is no larger than one that is nowhere larger is the same everywhere. */
  lemma {:induction false} SumSame(small: map<Name, nat>, large: map<Name, nat>)
    requires small.Keys <= large.Keys && forall n :: n in small ==> small[n] <= large[n]
    ensures Sum(small) <= Sum(large)
    ensures Sum(small) == Sum(large) ==> forall n :: n in small ==> small[n] == large[n]
    decreases |large|
  {
    if large == map[] {
      assert small == map[];
    } else {
      var n :| n in large;
      SumRemove(large, n);
      if n in small { SumRemove(small, n); } else { assert small - {n} == small; }
      SumSame(small - {n}, large - {n});
      forall o | o in small && o != n ensures o in small - {n} && (small - {n})[o] == small[o] {}
    }
  }

  /** A value costs the number it prints as. */
  function ValueCost(list: seq<int>): nat {
    if |list| == 1 then |NumberText(list[0])| else 0
  }

  ghost function ValueCosts(values: map<Name, seq<int>>): map<Name, nat> {
    map n | n in values :: ValueCost(values[n])
  }

  ghost function NameCosts(names: set<Name>): map<Name, nat> {
    map n | n in names :: NameCost(n)
  }

  /** The least a text has to weigh to be parsed as these values: the braces, every name and
      number, a colon each and the commas between them. */
  ghost predicate Affords(text: seq<Byte>, values: map<Name, seq<int>>) {
    Weight(text) + 1 >= 2 + Sum(NameCosts(values.Keys)) + Sum(ValueCosts(values)) + 2 * |values.Keys|
  }

  /** The shortest spelling of a number is the one it prints as. */
  lemma {:induction false} DecimalShortest(s: seq<Byte>)
    requires s != [] && AllDigits(s)
    ensures |Decimal(ParseDigits(s))| <= |s|
  {
    if |s| > 1 {
      DecimalShortest(s[..|s| - 1]);
    }
  }

  /** What the parser has seen: all names, and colons and commas enough for the values it holds. */
  ghost predicate Afforded(paid: nat, seen: set<Name>, marks: nat, depth: nat, values: map<Name, seq<int>>,
                           names: seq<NameEntry>, tokenIsValue: bool, negate: bool)
  {
    && paid >= depth + Sum(NameCosts(seen)) + Sum(ValueCosts(values)) + (if negate then 1 else 0) + marks
    && values.Keys <= seen && (forall k :: 0 <= k < |names| ==> names[k].content in seen)
    && depth <= 1 && (depth == 0 ==> values == map[])
    && if tokenIsValue then marks >= 2 * |Others(values, names)| + 1 else marks >= 2 * |values.Keys|
  }

  /** The names with a value but the one on top of the stack. */
  ghost function Others(values: map<Name, seq<int>>, names: seq<NameEntry>): set<Name> {
    if names == [] then values.Keys else values.Keys - {names[|names| - 1].content}
  }

  lemma AffordOpen(paid: nat, seen: set<Name>, marks: nat, values: map<Name, seq<int>>, names: seq<NameEntry>,
                   tokenIsValue: bool, negate: bool)
    requires Afforded(paid, seen, marks, 0, values, names, tokenIsValue, negate)
    ensures Afforded(paid + 1, seen, marks, 1, values, names, false, negate)
  {
  }

  lemma AffordClose(paid: nat, seen: set<Name>, marks: nat, values: map<Name, seq<int>>, names: seq<NameEntry>,
                    tokenIsValue: bool, negate: bool, text: seq<Byte>)
    requires Afforded(paid, seen, marks, 1, values, names, tokenIsValue, negate) && paid + 1 <= Weight(text)
    ensures Affords(text, values)
  {
    SumSame(NameCosts(values.Keys), NameCosts(seen));
    assert names != [] ==> values.Keys <= Others(values, names) + {names[|names| - 1].content};
    if names != [] { SizeLess(values.Keys, names[|names| - 1].content); }
  }

  lemma SizeLess(s: set<Name>, x: Name)
    ensures |s| <= |s - {x}| + 1
  {
    if x in s { assert s == s - {x} + {x}; } else { assert s - {x} == s; }
  }

  lemma AffordMinus(paid: nat, seen: set<Name>, marks: nat, depth: nat, values: map<Name, seq<int>>, names: seq<NameEntry>,
                    tokenIsValue: bool, negate: bool)
    requires Afforded(paid, seen, marks, depth, values, names, tokenIsValue, negate)
    ensures Afforded(paid + 1, seen, marks, depth, values, names, tokenIsValue, true)
  {
  }

  lemma AffordName(paid: nat, seen: set<Name>, marks: nat, depth: nat, values: map<Name, seq<int>>, names: seq<NameEntry>,
                   negate: bool, name: Name)
    requires Afforded(paid, seen, marks, depth, values, names, false, negate)
    ensures Afforded(paid + NameCost(name), seen + {name}, marks, depth, values, names + [NameEntry(name, 0, false)], false, false)
  {
    hide Sum, NameCost, NameCosts, ValueCosts;
    SeenMore(seen, name);
  }

  lemma SeenMore(seen: set<Name>, name: Name)
    ensures Sum(NameCosts(seen + {name})) <= Sum(NameCosts(seen)) + NameCost(name)
  {
    hide Sum, NameCost;
    SumPut(NameCosts(seen), name, NameCost(name));
    assert NameCosts(seen)[name := NameCost(name)] == NameCosts(seen + {name});
  }

  lemma AffordAssign(paid: nat, seen: set<Name>, marks: nat, depth: nat, values: map<Name, seq<int>>, names: seq<NameEntry>,
                     tokenIsValue: bool, negate: bool)
    requires Afforded(paid, seen, marks, depth, values, names, tokenIsValue, negate)
    ensures Afforded(paid + 1, seen, marks + 1, depth, values, names, true, negate)
  {
    if names != [] { SubsetSmaller(Others(values, names), values.Keys); }
  }

  lemma {:induction false} SubsetSmaller(a: set<Name>, b: set<Name>)
    requires a <= b
    ensures |a| <= |b|
  {
    assert b == a + (b - a);
  }

  lemma AffordComma(paid: nat, seen: set<Name>, marks: nat, depth: nat, values: map<Name, seq<int>>, names: seq<NameEntry>,
                    tokenIsValue: bool, negate: bool, names': seq<NameEntry>)
    requires Afforded(paid, seen, marks, depth, values, names, tokenIsValue, negate) && names != []
    requires names' == names || names' == names[..|names| - 1]
    ensures Afforded(paid + 1, seen, marks + 1, depth, values, names', false, negate)
  {
    SizeLess(values.Keys, names[|names| - 1].content);
  }

  /** A list in the making moves on, or begins or ends. */
  lemma AffordIndex(paid: nat, seen: set<Name>, marks: nat, depth: nat, values: map<Name, seq<int>>, names: seq<NameEntry>,
                    tokenIsValue: bool, negate: bool, top: NameEntry, more: nat)
    requires Afforded(paid, seen, marks, depth, values, names, tokenIsValue, negate) && names != []
    requires top.content == names[|names| - 1].content
    ensures Afforded(paid + more, seen, marks + more, depth, values, names[|names| - 1 := top], tokenIsValue, negate)
  {
  }

  lemma AffordNumber(paid: nat, seen: set<Name>, marks: nat, values: map<Name, seq<int>>, names: seq<NameEntry>,
                     negate: bool, text: seq<Byte>, idx: nat, v: int)
    requires Afforded(paid, seen, marks, 1, values, names, true, negate) && names != [] && text != [] && AllDigits(text)
    requires v == if negate then -(ParseDigits(text) as int) else ParseDigits(text)
    ensures Afforded(paid + NameCost(text), seen, marks, 1, Put(values, names[|names| - 1].content, idx, v), names, true, false)
  {
    hide Decimal, Put, ParseDigits, AllDigits, ValueCost, Afforded;
    var name := names[|names| - 1].content;
    DigitsCost(text);
    PutCost(values, name, idx, v);
    AffordPut(paid, seen, marks, values, names, negate, Put(values, name, idx, v), |NumberText(v)|, NameCost(text));
  }

  lemma AffordPut(paid: nat, seen: set<Name>, marks: nat, values: map<Name, seq<int>>, names: seq<NameEntry>, negate: bool,
                  after: map<Name, seq<int>>, cost: nat, more: nat)
    requires Afforded(paid, seen, marks, 1, values, names, true, negate) && names != []
    requires var name := names[|names| - 1].content;
             && after.Keys == values.Keys + {name} && ValueCost(after[name]) <= cost
             && forall n :: n in values && n != name ==> after[n] == values[n]
    requires cost <= more + if negate then 1 else 0
    ensures Afforded(paid + more, seen, marks, 1, after, names, true, false)
  {
    hide ValueCost, Sum, ValueCosts, NameCosts;
    var name := names[|names| - 1].content;
    ValuePut(values, name, after);
    assert Others(after, names) == Others(values, names);
  }

  lemma ValuePut(values: map<Name, seq<int>>, name: Name, after: map<Name, seq<int>>)
    requires after.Keys == values.Keys + {name} && forall n :: n in values && n != name ==> after[n] == values[n]
    ensures Sum(ValueCosts(after)) <= Sum(ValueCosts(values)) + ValueCost(after[name])
  {
    hide ValueCost, Sum;
    SumPut(ValueCosts(values), name, ValueCost(after[name]));
    assert ValueCosts(after) == ValueCosts(values)[name := ValueCost(after[name])];
  }

  lemma DigitsCost(text: seq<Byte>)
    requires text != [] && AllDigits(text)
    ensures |Decimal(ParseDigits(text))| <= NameCost(text)
  {
    forall i | 0 <= i < |text| ensures text[i] != QUOTE {
      assert IsDigit(Signed(text[i]));
    }
    WeightAll(text);
    DecimalShortest(text);
  }

  lemma PutCost(values: map<Name, seq<int>>, name: Name, idx: nat, v: int)
    ensures Put(values, name, idx, v).Keys == values.Keys + {name}
    ensures forall n :: n in values && n != name ==> Put(values, name, idx, v)[n] == values[n]
    ensures ValueCost(Put(values, name, idx, v)[name]) <= |NumberText(v)|
  {
  }

  datatype Reading = Value(value: int) | Ends(outcome: Parsed)

  /** A number where a value is due: std::stoi, as far as it is modelled. */
  function ReadNumber(text: seq<Byte>, negate: bool, named: bool): (r: Reading)
    ensures r.Value? <==> named && !HasPoint(text) && AllDigits(text) && ParseDigits(text) <= INT_MAX
    ensures r.Value? ==> r.value == if negate then -(ParseDigits(text) as int) else ParseDigits(text)
    ensures r.Ends? ==> r.outcome == if named && !HasPoint(text) && AllDigits(text) then Throws else NotModelled
  {
    if !named || HasPoint(text) || !AllDigits(text) then Ends(NotModelled)
    else if ParseDigits(text) > INT_MAX then Ends(Throws)
    else Value(if negate then -(ParseDigits(text) as int) else ParseDigits(text))
  }

  lemma NothingSeen(list: seq<Token>)
    ensures Afforded(Costs(list[..0]), {}, 0, 0, map[], [], false, false)
  {
    assert NameCosts({}) == map[] && ValueCosts(map[]) == map[];
  }

  lemma CostsNext(list: seq<Token>, i: nat)
    requires i < |list|
    ensures Costs(list[..i + 1]) == Costs(list[..i]) + Cost(list[i])
  {
    assert list[..i + 1] == list[..i] + [list[i]];
    CostsPush(list[..i], list[i]);
  }

  /** Up to a closing brace the text pays for all tokens. */
  lemma PaidUpTo(text: seq<Byte>, list: seq<Token>, i: nat)
    requires list != [] && list[|list| - 1] == Token(Eof, []) && PaidSoFar(text, |text|, list[..|list| - 1])
    requires 0 < i <= |list| && list[i - 1].kind == CompoundR
    ensures Costs(list[..i]) <= Weight(text)
  {
    hide Costs, Weight;
    var body := list[..|list| - 1];
    assert text[..|text|] == text;
    assert body[..i] == list[..i] && body[..|body|] == body;
    CostsPrefix(body, i, |body|);
    if body[|body| - 1].kind == Str {
      CostsPrefix(body, i, |body| - 1);
    }
  }

  lemma NumberThere(text: seq<Byte>, list: seq<Token>, i: nat)
    requires list != [] && list[|list| - 1] == Token(Eof, []) && PaidSoFar(text, |text|, list[..|list| - 1])
    requires i < |list| && list[i].kind == Number
    ensures list[i].content != []
  {
    assert list[i] == list[..|list| - 1][i];
  }

  /** Where the parser is in the tokens of the object, and what it holds there. */
  ghost predicate Parsing(m: map<Name, seq<int>>, order: seq<Name>, list: seq<Token>, i: nat, k: nat, j: nat, depth: nat,
                          values: map<Name, seq<int>>, names: seq<NameEntry>, tokenIsValue: bool, negate: bool)
    requires forall n :: n in order ==> n in m && |m[n]| == 1
  {
    i <= |list| &&
    if i == 0 then
      && list == TokensOf(m, order) + [Token(Eof, [])] && depth == 0
      && values == map[] && names == [] && !tokenIsValue && !negate && k == j == 0
    else
      && depth == 1 && Inside(m, order, list[i..], k, j)
      && Holds(m, order, k, j, values, names, tokenIsValue, negate)
  }

  /** The next token, and what the parser holds behind it. */
  lemma Follow(m: map<Name, seq<int>>, order: seq<Name>, list: seq<Token>, i: nat, k: nat, j: nat, depth: nat,
               values: map<Name, seq<int>>, names: seq<NameEntry>, tokenIsValue: bool, negate: bool)
    requires (forall n :: n in order ==> n in m && |m[n]| == 1) && forall n :: n in m ==> n in order
    requires Parsing(m, order, list, i, k, j, depth, values, names, tokenIsValue, negate)
    ensures i < |list|
    ensures match list[i].kind
            case CompoundL => depth == 0 && Parsing(m, order, list, i + 1, k, j, 1, values, names, false, negate)
            case CompoundR => depth == 1 && values == m && forall n :: n in m ==> Small(m[n][0])
            case OpSub => Parsing(m, order, list, i + 1, k, j + 1, depth, values, names, tokenIsValue, true)
            case Str =>
              && !tokenIsValue
              && Parsing(m, order, list, i + 1, k, j + 1, depth, values, names + [NameEntry(list[i].content, 0, false)], false, false)
            case Number =>
              && depth == 1 && tokenIsValue && names != [] && !HasPoint(list[i].content) && AllDigits(list[i].content)
              && var v := ParseDigits(list[i].content);
              && (v > INT_MAX ==> !(forall n :: n in m ==> Small(m[n][0])))
              && (v <= INT_MAX ==>
                    Parsing(m, order, list, i + 1, k, j + 1, depth,
                            Put(values, names[|names| - 1].content, names[|names| - 1].idx, if negate then -(v as int) else v),
                            names, true, false))
            case JsonAssign => Parsing(m, order, list, i + 1, k, j + 1, depth, values, names, true, negate)
            case Seperator =>
              && names != [] && !names[|names| - 1].isArray
              && Parsing(m, order, list, i + 1, k + 1, 0, depth, values, names[..|names| - 1], false, negate)
            case _ => false
  {
    hide Spell, Separable, TokensOf, TokensFrom, EntryOf, Inside, Holds, Put, Decimal, HasPoint, ParseDigits;
    if i == 0 {
      Opened(m, order, list);
      HoldsAtStart(m, order);
    } else {
      Expected(m, order, list, i, k, j);
      if order == [] || (j + 1 == |EntryOf(m, order, k)| && k + 1 == |order|) {
        HoldsClose(m, order, k, j, values, names, tokenIsValue, negate);
      } else if j == 0 {
        HoldsName(m, order, k, j, values, names, tokenIsValue, negate);
      } else if j == 1 {
        HoldsAssign(m, order, k, j, values, names, tokenIsValue, negate);
      } else if j == 2 && m[order[k]][0] < 0 {
        HoldsMinus(m, order, k, j, values, names, tokenIsValue, negate);
      } else if j + 1 == |EntryOf(m, order, k)| {
        HoldsComma(m, order, k, j, values, names, tokenIsValue, negate);
      } else {
        HoldsNumber(m, order, k, j, values, names, tokenIsValue, negate);
      }
    }
  }

  lemma ParsingStarts(m: map<Name, seq<int>>, order: seq<Name>, list: seq<Token>)
    requires (forall n :: n in order ==> n in m && |m[n]| == 1) && list == TokensOf(m, order) + [Token(Eof, [])]
    ensures Parsing(m, order, list, 0, 0, 0, 0, map[], [], false, false)
  {
  }

  /** unserialize. */
  method Unserialize(text: seq<Byte>, ghost m: map<Name, seq<int>>, ghost order: seq<Name>) returns (r: Parsed)
    requires Walked(m.Keys, {}, order) && Flat(m)
    ensures text == Spell(TokensOf(m, order)) && Separable(TokensOf(m, order)) ==>
              r == if forall n :: n in m ==> Small(m[n][0]) then Object(m) else Throws
    ensures r.Object? ==> Affords(text, r.values)
  {
    hide Parsing, Afforded, NameCost, Affords, Small, ReadNumber, Costs, PaidSoFar, Weight, NumberText, ParseDigits,
         Spell, Separable, TokensOf, TokensFrom, EntryOf, Inside, Holds, Walked, Put, Decimal, HasPoint;
    WalkedFacts(m, order);
    var list := Tokenize(text, TokensOf(m, order));
    ghost var good := text == Spell(TokensOf(m, order)) && Separable(TokensOf(m, order));
    ghost var k, j, seen, marks := 0, 0, {}, 0;
    NothingSeen(list);
    if good { ParsingStarts(m, order, list); }
    var i, depth, values: map<Name, seq<int>>, names: seq<NameEntry> := 0, 0, map[], [];
    var tokenIsValue, negate, didCloseObj := false, false, false;
    while true
      invariant i <= |list|
      invariant good ==> !didCloseObj && Parsing(m, order, list, i, k, j, depth, values, names, tokenIsValue, negate)
      invariant Afforded(Costs(list[..i]), seen, marks, depth, values, names, tokenIsValue, negate)
      decreases |list| - i
    {
      if good { Follow(m, order, list, i, k, j, depth, values, names, tokenIsValue, negate); }
      if i == |list| {
        return Aborts;
      }
      var token := list[i];
      ghost var paid := Costs(list[..i]);
      CostsNext(list, i);
      i := i + 1;
      match token.kind {
        case CompoundL =>
          if depth > 0 {
            return if names == [] then Aborts else NotModelled;
          }
          AffordOpen(paid, seen, marks, values, names, tokenIsValue, negate);
          depth := 1;
          tokenIsValue := false;
        case CompoundR =>
          if depth == 0 {
            return Aborts;
          }
          PaidUpTo(text, list, i);
          AffordClose(paid, seen, marks, values, names, tokenIsValue, negate, text);
          return Object(values);
        case OpSub =>
          AffordMinus(paid, seen, marks, depth, values, names, tokenIsValue, negate);
          negate := true;
          j := j + 1;
        case Str =>
          if tokenIsValue {
            return NotModelled;
          }
          AffordName(paid, seen, marks, depth, values, names, negate, token.content);
          seen := seen + {token.content};
          names := names + [NameEntry(token.content, 0, false)];
          negate := false;
          j := j + 1;
        case Number =>
          if tokenIsValue {
            var number := ReadNumber(token.content, negate, names != [] && depth != 0);
            if !number.Value? {
              return number.outcome;
            }
            var name := names[|names| - 1];
            NumberThere(text, list, i - 1);
            AffordNumber(paid, seen, marks, values, names, negate, token.content, name.idx, number.value);
            values := Put(values, name.content, name.idx, number.value);
          } else {
            AffordName(paid, seen, marks, depth, values, names, negate, token.content);
            seen := seen + {token.content};
            names := names + [NameEntry(token.content, 0, false)];
          }
          negate := false;
          j := j + 1;
        case JsonAssign =>
          AffordAssign(paid, seen, marks, depth, values, names, tokenIsValue, negate);
          marks := marks + 1;
          tokenIsValue := true;
          j := j + 1;
        case Seperator =>
          if names == [] {
            return Aborts;
          }
          var name := names[|names| - 1];
          if name.isArray {
            AffordIndex(paid, seen, marks, depth, values, names, tokenIsValue, negate, name.(idx := name.idx + 1), 1);
            names := names[|names| - 1 := name.(idx := name.idx + 1)];
          } else {
            AffordComma(paid, seen, marks, depth, values, names, tokenIsValue, negate,
                        if didCloseObj then names else names[..|names| - 1]);
            tokenIsValue := false;
            if !didCloseObj {
              names := names[..|names| - 1];
            }
          }
          didCloseObj := false;
          marks := marks + 1;
          k, j := k + 1, 0;
        case SubscrL =>
          if names == [] {
            return Aborts;
          }
          AffordIndex(paid, seen, marks, depth, values, names, tokenIsValue, negate, names[|names| - 1].(isArray := true), 0);
          names := names[|names| - 1 := names[|names| - 1].(isArray := true)];
        case SubscrR =>
          if names == [] {
            return Aborts;
          }
          AffordIndex(paid, seen, marks, depth, values, names, tokenIsValue, negate, names[|names| - 1].(isArray := false), 0);
          names := names[|names| - 1 := names[|names| - 1].(isArray := false)];
        case Null =>
        case _ =>
          return Throws;
      }
    }
  }

  // ---------- what a printed object weighs ----------

  ghost function NameWeights(names: set<Name>): map<Name, nat> {
    map n | n in names :: Weight(n)
  }

  /** The properties of some names. */
  ghost function Only(m: map<Name, seq<int>>, names: set<Name>): map<Name, seq<int>>
    requires names <= m.Keys
  {
    map n | n in names :: m[n]
  }

  lemma NumberWeighs(v: int)
    ensures Weight(NumberText(v)) == |NumberText(v)|
  {
    var text := NumberText(v);
    forall i | 0 <= i < |text| ensures text[i] != QUOTE {
      if v < 0 && i > 0 { assert text[i] == Decimal(-v)[i - 1]; }
      assert text[i] == 45 || IsDigit(Signed(text[i]));
    }
    WeightAll(text);
  }

  lemma EntryWeighs(name: Name, list: seq<int>)
    requires |list| == 1
    ensures Weight(EntryText(name, list)) == Weight(name) + ValueCost(list) + 2
  {
    hide Weight, NumberText;
    NumberWeighs(list[0]);
    WeightOne(QUOTE);
    WeightOne(58);
    WeightOne(COMMA);
    WeightConcat([QUOTE] + name + [QUOTE] + [58] + NumberText(list[0]), [COMMA]);
    WeightConcat([QUOTE] + name + [QUOTE] + [58], NumberText(list[0]));
    WeightConcat([QUOTE] + name + [QUOTE], [58]);
    WeightConcat([QUOTE] + name, [QUOTE]);
    WeightConcat([QUOTE], name);
  }

  ghost function NamesIn(order: seq<Name>): set<Name> {
    set n | n in order
  }

  lemma {:induction false} EntriesWeigh(m: map<Name, seq<int>>, order: seq<Name>)
    requires forall n :: n in order ==> n in m && |m[n]| == 1
    requires forall i, j :: 0 <= i < j < |order| ==> order[i] != order[j]
    ensures var names := NamesIn(order);
            && names <= m.Keys
            && Weight(EntriesText(m, order)) == Sum(NameWeights(names)) + Sum(ValueCosts(Only(m, names))) + 2 * |names|
  {
    hide Weight, EntryText, ValueCost, Sum, NameWeights, ValueCosts, Only, NamesIn;
    if order == [] {
      NoEntries(m, order);
    } else {
      var front, name := order[..|order| - 1], order[|order| - 1];
      LastName(order);
      var names := NamesIn(front);
      EntriesWeigh(m, front);
      WeightConcat(EntriesText(m, front), EntryText(name, m[name]));
      EntryWeighs(name, m[name]);
      InNames(m, front);
      SumsPush(m, names, name);
    }
  }

  lemma InNames(m: map<Name, seq<int>>, order: seq<Name>)
    requires forall n :: n in order ==> n in m
    ensures NamesIn(order) <= m.Keys
  {
  }

  lemma LastName(order: seq<Name>)
    requires order != [] && forall i, j :: 0 <= i < j < |order| ==> order[i] != order[j]
    ensures var front, name := order[..|order| - 1], order[|order| - 1];
            NamesIn(order) == NamesIn(front) + {name} && name !in NamesIn(front)
  {
  }

  lemma SumsPush(m: map<Name, seq<int>>, names: set<Name>, name: Name)
    requires names <= m.Keys && name in m && name !in names
    ensures Sum(NameWeights(names + {name})) == Sum(NameWeights(names)) + Weight(name)
    ensures Sum(ValueCosts(Only(m, names + {name}))) == Sum(ValueCosts(Only(m, names))) + ValueCost(m[name])
    ensures |names + {name}| == |names| + 1
  {
    hide Weight, ValueCost, Sum;
    SumPut(NameWeights(names), name, Weight(name));
    assert NameWeights(names)[name := Weight(name)] == NameWeights(names + {name});
    SumPut(ValueCosts(Only(m, names)), name, ValueCost(m[name]));
    assert ValueCosts(Only(m, names))[name := ValueCost(m[name])] == ValueCosts(Only(m, names + {name}));
  }

  lemma NoEntries(m: map<Name, seq<int>>, order: seq<Name>)
    requires order == []
    ensures NamesIn(order) == {} && NameWeights({}) == map[] && ValueCosts(Only(m, {})) == map[] && Sum(map[]) == 0
    ensures Weight(EntriesText(m, order)) == 0
  {
  }

  /** The printed object holds just enough for names without escapes. */
  lemma PrintedWeighs(m: map<Name, seq<int>>, order: seq<Name>, text: seq<Byte>)
    requires Walked(m.Keys, {}, order) && Flat(m) && order != []
    requires text == [123] + EntriesText(m, order)[..|EntriesText(m, order)| - 1] + [125]
    ensures Weight(text) + 1 == 2 + Sum(NameWeights(m.Keys)) + Sum(ValueCosts(m)) + 2 * |m.Keys|
  {
    hide Weight, EntriesText, Sum, ValueCosts, NameWeights;
    WalkedFacts(m, order);
    EntriesWeigh(m, order);
    assert NamesIn(order) == m.Keys && Only(m, m.Keys) == m;
    EndsWithComma(m, order);
    var all := EntriesText(m, order);
    var front := all[..|all| - 1];
    assert all == front + [COMMA];
    WeightConcat(front, [COMMA]);
    WeightConcat([123] + front, [125]);
    WeightConcat([123], front);
    WeightOne(COMMA);
    WeightOne(123);
    WeightOne(125);
  }

  /** A printed object that parses as itself has plain names only. */
  lemma OnlyPlainReturn(m: map<Name, seq<int>>, order: seq<Name>, text: seq<Byte>)
    requires Walked(m.Keys, {}, order) && Flat(m) && Affords(text, m)
    requires text == [123] + (if order == [] then [] else EntriesText(m, order)[..|EntriesText(m, order)| - 1]) + [125]
    ensures forall n :: n in m ==> Plain(n)
  {
    hide EntriesText, Sum, Weight;
    WalkedFacts(m, order);
    if order != [] {
      PrintedWeighs(m, order, text);
      SumSame(NameWeights(m.Keys), NameCosts(m.Keys));
      forall n | n in m ensures Plain(n) {
        assert NameWeights(m.Keys)[n] == NameCosts(m.Keys)[n];
      }
    }
  }

  // ---------- both ----------

  /** An object of numbers, printed and parsed, comes back exactly when every name is plain and
      every number within 31 bits; under plain names the parser throws otherwise. */
  method PrintAndParse(m: map<Name, seq<int>>) returns (r: Parsed)
    requires Flat(m)
    ensures r == Object(m) <==> forall n :: n in m ==> Plain(n) && Small(m[n][0])
    ensures (forall n :: n in m ==> Plain(n)) && r != Object(m) ==> r == Throws
  {
    hide Spell, Separable, TokensOf, Plain, Walked, EntriesText, Affords, Small;
    var text, order := Serialize(m);
    WalkedFacts(m, order);
    SpellObject(m, order);
    r := Unserialize(text, m, order);
    if forall n :: n in m ==> Plain(n) {
      ObjectSeparable(m, order);
    }
    if r == Object(m) {
      OnlyPlainReturn(m, order, text);
    }
  }
}
