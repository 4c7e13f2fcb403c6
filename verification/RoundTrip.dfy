/** What the formatter prints, the integer parser reads back. */
module RoundTrip {
  import opened CTypes
  import opened Digits
  import opened Format
  import opened Rendering
  import opened Xatoi

  // One number of a printed list: the '*' width argument (negative: left justified), the
  // value, and how many spaces the format has behind the conversion.
  datatype Item = Item(width: i32, value: i32, gap: nat)

  const SIGNED_STAR: Directive := Spec(NoFlag, FromArg, Unlimited, Long, 'd')

  function Blanks(n: nat): seq<Directive> { if n == 0 then [] else [Text(' ')] + Blanks(n - 1) }

  /** The format "%*ld" and its gap, for every item. */
  function ListDirectives(items: seq<Item>): seq<Directive> {
    if items == [] then []
    else [SIGNED_STAR] + (Blanks(items[0].gap) + ListDirectives(items[1..]))
  }

  function ListArgs(items: seq<Item>): seq<Arg> {
    if items == [] then []
    else [Word(ToU32(items[0].width)), Word(ToU32(items[0].value))] + ListArgs(items[1..])
  }

  function Values(items: seq<Item>): seq<i32> {
    if items == [] then [] else [items[0].value] + Values(items[1..])
  }

  // ---- The printed text ----

  function Gap(it: Item): nat { Max(Abs(it.width) - |NumberText('d', it.value)|, 0) }

  function Abs(x: int): nat { if x < 0 then -x else x }

  function Lead(it: Item): nat { if it.width < 0 then 0 else Gap(it) }

  function Trail(it: Item): nat { if it.width < 0 then Gap(it) + it.gap else it.gap }

  function ItemText(it: Item): seq<cchar> {
    Repeat(' ', Lead(it)) + NumberText('d', it.value) + Repeat(' ', Trail(it))
  }

  /** The numerals of the items, separated by spaces. */
  function ListText(items: seq<Item>): seq<cchar> {
    if items == [] then [] else ItemText(items[0]) + ListText(items[1..])
  }

  lemma RenderItem(it: Item, args: seq<Arg>, k: nat)
    requires k + 1 < |args| && args[k] == Word(ToU32(it.width)) && args[k + 1] == Word(ToU32(it.value))
    ensures RenderOne(SIGNED_STAR, args, k) + Repeat(' ', it.gap) == ItemText(it)
  {
    hide NumberText;
    WordRoundTrip(it.width);
    WordRoundTrip(it.value);
    assert |Stars(SIGNED_STAR)| == 1;
  }

  lemma WordRoundTrip(x: i32)
    ensures ToI32(ToU32(x)) == x
  {
  }

  /** The arguments from k on are those of the items. */
  predicate Holds(items: seq<Item>, args: seq<Arg>, k: nat)
    decreases |items|
  {
    items == [] ||
    (k + 1 < |args| && args[k] == Word(ToU32(items[0].width)) && args[k + 1] == Word(ToU32(items[0].value))
     && Holds(items[1..], args, k + 2))
  }

  lemma {:induction false} ListArgsHold(items: seq<Item>, pre: seq<Arg>)
    ensures Holds(items, pre + ListArgs(items), |pre|)
    decreases |items|
  {
    if items != [] {
      var a, b := Word(ToU32(items[0].width)), Word(ToU32(items[0].value));
      var rest := ListArgs(items[1..]);
      ListArgsHold(items[1..], pre + [a, b]);
      assert (pre + [a, b]) + rest == pre + ([a, b] + rest);
      var all := pre + ([a, b] + rest);
      assert all[|pre|] == a && all[|pre| + 1] == b;
    }
  }

  lemma {:induction false} RenderBlanks(n: nat, args: seq<Arg>, k: nat)
    ensures Render(Blanks(n), args, k) == Repeat(' ', n) && TakesAll(Blanks(n)) == []
    ensures forall i :: 0 <= i < |Blanks(n)| ==> Blanks(n)[i] == Text(' ')
  {
    if n > 0 {
      RenderBlanks(n - 1, args, k);
      assert Blanks(n)[1..] == Blanks(n - 1);
    }
  }

  lemma {:induction false} RenderList(items: seq<Item>, args: seq<Arg>, k: nat)
    requires Holds(items, args, k)
    ensures Supplies(args, k, TakesAll(ListDirectives(items)))
    ensures Render(ListDirectives(items), args, k) == ListText(items)
    decreases |items|
  {
    hide RenderOne, Takes, ItemText, Blanks;
    if items != [] {
      var it, rest := items[0], ListDirectives(items[1..]);
      RenderList(items[1..], args, k + 2);
      RenderItem(it, args, k);
      RenderStar(it.gap, rest, args, k);
      var h, g, t := RenderOne(SIGNED_STAR, args, k), Repeat(' ', it.gap), ListText(items[1..]);
      assert h + (g + t) == (h + g) + t;
    }
  }

  lemma RenderStar(gap: nat, rest: seq<Directive>, args: seq<Arg>, k: nat)
    requires k + 1 < |args| && args[k].Word? && args[k + 1].Word?
    requires Supplies(args, k + 2, TakesAll(rest))
    ensures Supplies(args, k, TakesAll([SIGNED_STAR] + (Blanks(gap) + rest)))
    ensures Render([SIGNED_STAR] + (Blanks(gap) + rest), args, k) ==
            RenderOne(SIGNED_STAR, args, k) + (Repeat(' ', gap) + Render(rest, args, k + 2))
  {
    hide RenderOne, Takes, Blanks, Supplies;
    var tail := Blanks(gap) + rest;
    RenderBlanks(gap, args, k + 2);
    RenderConcat(Blanks(gap), rest, args, k + 2);
    TakesConcat(Blanks(gap), rest);
    StarTakes();
    assert ([SIGNED_STAR] + tail)[1..] == tail;
    assert TakesAll(tail) == TakesAll(rest);
    SuppliesTwo(args, k, TakesAll(rest));
  }

  lemma StarTakes()
    ensures Takes(SIGNED_STAR) == [AWord, AWord]
  {
  }

  lemma SuppliesTwo(args: seq<Arg>, k: nat, kinds: seq<Kind>)
    requires k + 1 < |args| && args[k].Word? && args[k + 1].Word? && Supplies(args, k + 2, kinds)
    ensures Supplies(args, k, [AWord, AWord] + kinds)
  {
    assert Supplies(args, k, [AWord, AWord]);
    SuppliesSplit(args, k, [AWord, AWord], kinds);
  }

  // ---- Reading it back ----

  ghost predicate Visible(t: seq<cchar>) { t != [] && forall i :: 0 <= i < |t| ==> t[i] > ' ' }

  /** A visible text between spaces is the next token. */
  lemma {:induction false} TokenBetween(s: CString, p: nat, lead: nat, t: seq<cchar>)
    requires Visible(t) && At(s, p, Repeat(' ', lead) + t)
    requires p + lead + |t| < |s| && s[p + lead + |t|] <= ' '
    ensures TokenStart(s, p) == p + lead && TokenEnd(s, p + lead) == p + lead + |t|
    ensures Token(s, p) == t
    decreases lead
  {
    AtSplit(s, p, Repeat(' ', lead), t);
    if lead > 0 {
      AtIndex(s, p, Repeat(' ', lead), 0);
      assert Repeat(' ', lead) + t == [' '] + (Repeat(' ', lead - 1) + t);
      AtSplit(s, p, [' '], Repeat(' ', lead - 1) + t);
      TokenBetween(s, p + 1, lead - 1, t);
    } else {
      AtIndex(s, p, t, 0);
      forall i | p <= i < p + |t| ensures s[i] > ' ' { AtIndex(s, p, t, i - p); }
      TokenEndIs(s, p, p + |t|);
    }
  }

  lemma {:induction false} TokenEndIs(s: CString, p: nat, e: nat)
    requires p <= e < |s| && s[e] <= ' ' && forall i :: p <= i < e ==> s[i] > ' '
    ensures TokenEnd(s, p) == e
    decreases e - p
  {
    if p < e { TokenEndIs(s, p + 1, e); }
  }

  /** The numeral of a 32-bit value is a token that denotes it. */
  lemma NumeralToken(v: i32)
    ensures Visible(NumberText('d', v)) && TokenValue(NumberText('d', v)) == Some(v)
  {
    hide Horner, Numeral, CharDigit;
    NumberTextShowsValue('d', v);
    var t := NumberText('d', v);
    var digits := if v < 0 then t[1..] else t;
    assert v < 0 ==> t == ['-'] + digits;
    assert digits[0] != '-' by { DigitsAccepted(digits[0], 10); }
    if digits == ['0'] {
      if v < 0 { HornerZero(); }
    } else {
      assert Magnitude(digits) == Some(Horner(digits, 10));
    }
  }

  lemma HornerZero()
    ensures Horner(['0'], 10) == 0
  {
    HornerSingle('0', 10);
  }

  /** Between any two numbers stands a space: from the format or from either field's padding. */
  predicate Separated(items: seq<Item>) {
    forall i :: 0 <= i < |items| - 1 ==> Trail(items[i]) + Lead(items[i + 1]) >= 1
  }

  lemma {:induction false} ReadList(s: CString, p: nat, lead: nat, items: seq<Item>)
    requires Separated(items)
    requires p < |s| && s[p..] == Repeat(' ', lead) + ListText(items) + [NUL]
    ensures var r := ReadMany(s, p, |items|);
            && r.Some? && r.value.0 == Values(items)
            && r.value.1 < |s| && TokenValue(Token(s, r.value.1)) == None
    decreases |items|
  {
    hide ItemText, TokenStart, TokenEnd, Token, TokenValue, Separated, Trail;
    if items == [] {
      BlankTail(s, p, lead);
    } else {
      SeparatedStep(items);
      FirstBlank(items);
      ReadFirst(s, p, lead, items[0], ListText(items[1..]));
      ReadList(s, TokenEnd(s, TokenStart(s, p)), Trail(items[0]), items[1..]);
    }
  }

  lemma SeparatedStep(items: seq<Item>)
    requires items != []
    ensures Separated(items) <==>
              (|items| >= 2 ==> Trail(items[0]) + Lead(items[1]) >= 1) && Separated(items[1..])
  {
    hide Trail, Lead;
    var rest := items[1..];
    if Separated(rest) && (|items| >= 2 ==> Trail(items[0]) + Lead(items[1]) >= 1) {
      forall i | 0 <= i < |items| - 1 ensures Trail(items[i]) + Lead(items[i + 1]) >= 1 {
        if i > 0 { assert Trail(rest[i - 1]) + Lead(rest[i]) >= 1; }
      }
    }
  }

  /** What follows the first number begins with a blank or is the terminator. */
  lemma FirstBlank(items: seq<Item>)
    requires items != [] && (|items| >= 2 ==> Trail(items[0]) + Lead(items[1]) >= 1)
    ensures (Repeat(' ', Trail(items[0])) + ListText(items[1..]) + [NUL])[0] <= ' '
  {
    hide NumberText, Trail, Lead;
    if Trail(items[0]) == 0 && |items| >= 2 {
      assert ListText(items[1..]) == ItemText(items[1]) + ListText(items[1..][1..]);
    }
  }

  lemma ReadFirst(s: CString, p: nat, lead: nat, it: Item, rest: seq<cchar>)
    requires (Repeat(' ', Trail(it)) + rest + [NUL])[0] <= ' '
    requires p < |s| && s[p..] == Repeat(' ', lead) + (ItemText(it) + rest) + [NUL]
    ensures TokenValue(Token(s, p)) == Some(it.value)
    ensures s[TokenEnd(s, TokenStart(s, p))..] == Repeat(' ', Trail(it)) + rest + [NUL]
  {
    hide NumberText, TokenValue, Lead, Trail, ItemText, At, Token, TokenStart, TokenEnd;
    var a, t := lead + Lead(it), NumberText('d', it.value);
    var head, tail := Repeat(' ', a) + t, Repeat(' ', Trail(it)) + rest;
    NumeralToken(it.value);
    ItemParts(lead, it, rest);
    TextSplit(s, p, head, tail);
    assert s[p + |head|..][0] == (tail + [NUL])[0];
    TokenBetween(s, p, a, t);
  }

  lemma ItemParts(lead: nat, it: Item, rest: seq<cchar>)
    ensures var head := Repeat(' ', lead + Lead(it)) + NumberText('d', it.value);
            Repeat(' ', lead) + (ItemText(it) + rest) == head + (Repeat(' ', Trail(it)) + rest)
  {
    hide NumberText, Lead, Trail;
    var t := NumberText('d', it.value);
    Regroup(Repeat(' ', Lead(it)) + t, Repeat(' ', Trail(it)), rest);
    LeadJoin(lead, Lead(it), t, Repeat(' ', Trail(it)) + rest);
  }

  lemma LeadJoin(m: nat, n: nat, t: seq<cchar>, tail: seq<cchar>)
    ensures Repeat(' ', m) + (Repeat(' ', n) + t + tail) == Repeat(' ', m + n) + t + tail
  {
    assert Repeat(' ', m) + Repeat(' ', n) == Repeat(' ', m + n);
  }

  /** Behind the last token only blanks are left: one more call fails. */
  lemma {:induction false} BlankTail(s: CString, p: nat, lead: nat)
    requires p < |s| && s[p..] == Repeat(' ', lead) + [] + [NUL]
    ensures TokenValue(Token(s, p)) == None
    decreases lead
  {
    assert s[p..][0] == s[p];
    if lead > 0 {
      assert s[p + 1..] == s[p..][1..] == Repeat(' ', lead - 1) + [] + [NUL];
      BlankTail(s, p + 1, lead - 1);
    } else {
      assert Token(s, p) == [];
    }
  }

  // ---- Without a space two numbers run together ----

  /** How many words begin in t; inside tells whether t begins inside one. */
  function Words(t: seq<cchar>, inside: bool): nat {
    if t == [] then 0
    else (if t[0] > ' ' && !inside then 1 else 0) + Words(t[1..], t[0] > ' ')
  }

  ghost predicate EndsInside(t: seq<cchar>, inside: bool) {
    if t == [] then inside else t[|t| - 1] > ' '
  }

  lemma {:induction false} WordsConcat(t: seq<cchar>, u: seq<cchar>, inside: bool)
    ensures Words(t + u, inside) == Words(t, inside) + Words(u, EndsInside(t, inside))
    decreases |t|
  {
    if t == [] {
      assert t + u == u;
    } else {
      WordsConcat(t[1..], u, t[0] > ' ');
      assert (t + u)[1..] == t[1..] + u;
    }
  }

  lemma {:induction false} WordsBlank(n: nat, inside: bool)
    ensures Words(Repeat(' ', n), inside) == 0
  {
    if n > 0 {
      WordsBlank(n - 1, false);
      assert Repeat(' ', n)[1..] == Repeat(' ', n - 1);
    }
  }

  lemma {:induction false} WordsVisible(t: seq<cchar>, inside: bool)
    requires Visible(t)
    ensures Words(t, inside) == if inside then 0 else 1
    decreases |t|
  {
    if |t| > 1 { WordsVisible(t[1..], true); }
  }

  lemma WordsOfItem(it: Item, inside: bool)
    ensures Words(ItemText(it), inside) == if inside && Lead(it) == 0 then 0 else 1
    ensures EndsInside(ItemText(it), inside) == (Trail(it) == 0)
  {
    hide NumberText, Words, Lead, Trail;
    var a, t, c := Repeat(' ', Lead(it)), NumberText('d', it.value), Repeat(' ', Trail(it));
    NumeralToken(it.value);
    WordsConcat(a + t, c, inside);
    WordsConcat(a, t, inside);
    WordsBlank(Lead(it), inside);
    WordsVisible(t, EndsInside(a, inside));
    WordsBlank(Trail(it), true);
    assert (a + t)[|a + t| - 1] == t[|t| - 1];
  }

  /** The text never has more words than items, and as many only if the items are separated. */
  lemma {:induction false} WordsOfList(items: seq<Item>, inside: bool)
    ensures Words(ListText(items), inside) <= |items|
    ensures Words(ListText(items), inside) == |items| ==>
              Separated(items) && (inside && items != [] ==> Lead(items[0]) >= 1)
    decreases |items|
  {
    hide ItemText, Words, Separated, Lead, Trail;
    if items == [] {
      NoItems(inside);
    } else {
      var it := items[0];
      WordsOfItem(it, inside);
      WordsConcat(ItemText(it), ListText(items[1..]), inside);
      WordsOfList(items[1..], Trail(it) == 0);
      SeparatedStep(items);
    }
  }

  lemma NoItems(inside: bool)
    ensures Words([], inside) == 0 && Separated([])
  {
  }

  /** Every successful call uses up a word of its own. */
  lemma {:induction false} CallsUseWords(s: CString, p: nat, n: nat)
    requires p < |s| && ReadMany(s, p, n).Some?
    ensures n <= Words(s[p..], false)
    decreases n
  {
    hide TokenValue, Words;
    if n > 0 {
      var b := TokenStart(s, p);
      var e := TokenEnd(s, b);
      WordsSkip(s, p);
      if b == e { EmptyToken(s, p); }
      WordsInside(s, b);
      CallsUseWords(s, e, n - 1);
    }
  }

  lemma EmptyToken(s: CString, p: nat)
    requires p < |s| && TokenEnd(s, TokenStart(s, p)) == TokenStart(s, p)
    ensures TokenValue(Token(s, p)) == None
  {
    assert Token(s, p) == [];
  }

  lemma {:induction false} WordsSkip(s: CString, p: nat)
    requires p < |s|
    ensures Words(s[p..], false) == Words(s[TokenStart(s, p)..], false)
    decreases |s| - p
  {
    if s[p] == ' ' {
      WordsSkip(s, p + 1);
      assert s[p..][1..] == s[p + 1..];
    }
  }

  lemma WordsInside(s: CString, b: nat)
    requires b < |s| && b < TokenEnd(s, b)
    ensures Words(s[b..], false) == 1 + Words(s[TokenEnd(s, b)..], false)
  {
    hide Words;
    var e := TokenEnd(s, b);
    assert s[b..] == s[b..e] + s[e..];
    WordsConcat(s[b..e], s[e..], false);
    WordsVisible(s[b..e], false);
    AtBlank(s[e..]);
  }

  lemma AtBlank(t: seq<cchar>)
    requires t != [] && t[0] <= ' '
    ensures Words(t, true) == Words(t, false)
  {
  }

  // ---- The theorems ----

  lemma {:induction false} ListSpellable(items: seq<Item>)
    ensures forall i :: 0 <= i < |ListDirectives(items)| ==> Spellable(ListDirectives(items)[i])
  {
    if items != [] {
      ListSpellable(items[1..]);
      RenderBlanks(items[0].gap, [], 0);
    }
  }

  lemma {:induction false} ListTextPlain(items: seq<Item>)
    ensures forall c :: c in ListText(items) ==> c >= ' '
  {
    hide NumberText;
    if items != [] {
      ListTextPlain(items[1..]);
      NumeralToken(items[0].value);
    }
  }

  /** What formatting ds with args leaves in memory, terminator included. */
  function Printed(ds: seq<Directive>, args: seq<Arg>): seq<cchar>
    requires forall i :: 0 <= i < |ds| ==> Spellable(ds[i])
  {
    Expand(Render(Directives(FormatOf(ds), 0), args, 0)) + [NUL]
  }

  /**
   * Every list of 32-bit values, each formatted with %*ld and any number of spaces behind it,
   * is read back by as many calls of xatoi exactly when a space stands between any two numbers.
   * One more call fails. If two numbers touch, one of the calls fails.
   */
  lemma ListRoundTrip(items: seq<Item>)
    ensures forall i :: 0 <= i < |ListDirectives(items)| ==> Spellable(ListDirectives(items)[i])
    ensures Supplies(ListArgs(items), 0, TakesAll(ListDirectives(items)))
    ensures var s := Printed(ListDirectives(items), ListArgs(items));
            && IsCString(s)
            && var r := ReadMany(s, 0, |items|);
            && (r.Some? <==> Separated(items))
            && (r.Some? ==> |r.value.0| == |items| && (forall i :: 0 <= i < |items| ==> r.value.0[i] == items[i].value)
                            && r.value.1 < |s| && TokenValue(Token(s, r.value.1)) == None)
  {
    hide ListText, ListDirectives, ListArgs, Render, Expand, Supplies, Directives, FormatOf, TakesAll;
    hide ReadMany, Values, Token, TokenValue, Separated, Words;
    ListSpellable(items);
    ListArgsHold(items, []);
    assert [] + ListArgs(items) == ListArgs(items);
    RenderList(items, ListArgs(items), 0);
    ListTextPlain(items);
    ExpandPlain(ListText(items));
    var s := Printed(ListDirectives(items), ListArgs(items));
    assert s == ListText(items) + [NUL];
    Terminated(ListText(items));
    if Separated(items) {
      assert s[0..] == Repeat(' ', 0) + ListText(items) + [NUL];
      ReadList(s, 0, 0, items);
      ValuesAre(items);
    } else if ReadMany(s, 0, |items|).Some? {
      TouchingFails(s, items);
    }
  }

  lemma {:induction false} ValuesAre(items: seq<Item>)
    ensures |Values(items)| == |items| && forall i :: 0 <= i < |items| ==> Values(items)[i] == items[i].value
  {
    if items != [] { ValuesAre(items[1..]); }
  }

  /** The format of the list, item by item. */
  lemma ListFormat(items: seq<Item>)
    requires items != []
    ensures SpellAll(ListDirectives(items)) ==
            ['%', '*', 'l', 'd'] + Repeat(' ', items[0].gap) + SpellAll(ListDirectives(items[1..]))
  {
    var rest := ListDirectives(items[1..]);
    BlankFormat(items[0].gap, rest);
    assert Spell(SIGNED_STAR) == ['%', '*', 'l', 'd'];
    assert ([SIGNED_STAR] + (Blanks(items[0].gap) + rest))[1..] == Blanks(items[0].gap) + rest;
    Regroup(['%', '*', 'l', 'd'], Repeat(' ', items[0].gap), SpellAll(rest));
  }

  lemma {:induction false} BlankFormat(n: nat, ds: seq<Directive>)
    ensures SpellAll(Blanks(n) + ds) == Repeat(' ', n) + SpellAll(ds)
  {
    hide SpellAll;
    if n == 0 {
      assert Blanks(0) + ds == ds;
      assert Repeat(' ', 0) + SpellAll(ds) == SpellAll(ds);
    } else {
      BlankFormat(n - 1, ds);
      BlankFirst(Blanks(n - 1) + ds);
      assert Blanks(n) + ds == [Text(' ')] + (Blanks(n - 1) + ds);
      assert [' '] + Repeat(' ', n - 1) == Repeat(' ', n);
      Regroup([' '], Repeat(' ', n - 1), SpellAll(ds));
    }
  }

  lemma BlankFirst(ds: seq<Directive>)
    ensures SpellAll([Text(' ')] + ds) == [' '] + SpellAll(ds)
  {
    assert ([Text(' ')] + ds)[1..] == ds;
  }

  lemma TouchingFails(s: CString, items: seq<Item>)
    requires s == ListText(items) + [NUL] && ReadMany(s, 0, |items|).Some?
    ensures Separated(items)
  {
    hide ListText, ReadMany, Separated, Words;
    CallsUseWords(s, 0, |items|);
    assert s[0..] == s;
    WordsConcat(ListText(items), [NUL], false);
    EndWord(EndsInside(ListText(items), false));
    WordsOfList(items, false);
  }

  lemma EndWord(inside: bool)
    ensures Words([NUL], inside) == 0
  {
  }

  lemma Terminated(t: seq<cchar>)
    requires forall c :: c in t ==> c >= ' '
    ensures IsCString(t + [NUL])
  {
    forall i | 0 <= i < |t| ensures (t + [NUL])[i] != NUL { assert t[i] in t; }
  }

  /** The conversions with a prefix that xatoi understands. */
  predicate PrefixOf(prefix: seq<cchar>, conv: cchar) {
    || (prefix == ['0', 'x'] && conv in {'x', 'X'})
    || (prefix == ['0'] && conv == 'o')
    || (prefix == ['0', 'b'] && conv == 'b')
  }

  /** Behind its prefix a zero-padded digit string is read in the prefix's radix. */
  lemma PrefixedToken(prefix: seq<cchar>, conv: cchar, digits: seq<cchar>)
    requires PrefixOf(prefix, conv) && digits != [] && AllDigits(digits, Radix(conv))
    ensures Magnitude(prefix + digits) == Some(Horner(digits, Radix(conv)))
    ensures Visible(prefix + digits) && (prefix + digits)[0] == '0'
  {
    hide Horner, CharDigit;
    var t := prefix + digits;
    assert t[|prefix|..] == digits;
    assert t[0] == '0';
    assert t != ['0'];
    if conv == 'o' { assert digits[0] !in {'x', 'b'} by { DigitsAccepted(digits[0], 8); } }
  }

  /**
   * 0x%lx, 0x%lX, 0%lo and 0b%lb, plain or zero padded to any width, are read back to the bit
   * pattern that was printed.
   */
  lemma PrefixedRoundTrip(prefix: seq<cchar>, flag: Flag, width: u32, conv: cchar, v: u32)
    requires PrefixOf(prefix, conv) && (flag == Zero || (flag == NoFlag && width == 0))
    ensures var d := Spec(flag, Fixed(width), Unlimited, Long, conv);
            var t := prefix + RenderOne(d, [Word(v)], 0);
            Visible(t) && TokenValue(t) == Some(ToI32(v))
  {
    hide Horner, Numeral, CharDigit, Magnitude;
    var d := Spec(flag, Fixed(width), Unlimited, Long, conv);
    var digits := NumberText(conv, v);
    NumberTextShowsValue(conv, v);
    ValueKept(v, conv);
    var pad := Max(width - |digits|, 0);
    LeadingZeros(pad, digits, Radix(conv));
    assert RenderOne(d, [Word(v)], 0) == Repeat('0', pad) + digits;
    PrefixedToken(prefix, conv, Repeat('0', pad) + digits);
  }

  lemma ValueKept(v: u32, conv: cchar)
    requires IsNumeric(conv) && conv != 'd'
    ensures Horner(NumberText(conv, v), Radix(conv)) == v
  {
    NumberTextShowsValue(conv, v);
  }

  /** The same through a format string: print "<prefix>%0<width>l<conv>", parse the memory. */
  lemma PrefixedFormatRoundTrip(prefix: seq<cchar>, flag: Flag, width: u32, conv: cchar, v: u32)
    requires PrefixOf(prefix, conv) && (flag == Zero || (flag == NoFlag && width == 0))
    ensures var ds := PrefixTexts(prefix) + [Spec(flag, Fixed(width), Unlimited, Long, conv)];
            && (forall i :: 0 <= i < |ds| ==> Spellable(ds[i])) && Supplies([Word(v)], 0, TakesAll(ds))
            && var s := Printed(ds, [Word(v)]);
            && IsCString(s) && TokenValue(Token(s, 0)) == Some(ToI32(v))
  {
    hide RenderOne, Directives, TokenValue, Token, FormatOf, PrefixTexts, Render, Expand, TakesAll;
    var d := Spec(flag, Fixed(width), Unlimited, Long, conv);
    var ds := PrefixTexts(prefix) + [d];
    var t := prefix + RenderOne(d, [Word(v)], 0);
    PrefixedRoundTrip(prefix, flag, width, conv, v);
    RenderTexts(prefix, [Word(v)]);
    PrefixTakes(prefix, d, v);
    RenderConcat(PrefixTexts(prefix), [d], [Word(v)], 0);
    RenderSingle(d, [Word(v)], 0);
    ExpandPlain(t);
    Terminated(t);
    assert t + [NUL] == Printed(ds, [Word(v)]);
    assert At(t + [NUL], 0, Repeat(' ', 0) + t) by { assert Repeat(' ', 0) + t == t; }
    TokenBetween(t + [NUL], 0, 0, t);
  }

  lemma PrefixTakes(prefix: seq<cchar>, d: Directive, v: u32)
    requires TakesAll(PrefixTexts(prefix)) == [] && Supplies([Word(v)], 0, Takes(d))
    ensures Supplies([Word(v)], 0, TakesAll(PrefixTexts(prefix) + [d]))
  {
    hide Takes, PrefixTexts;
    TakesConcat(PrefixTexts(prefix), [d]);
    assert TakesAll([d]) == Takes(d) + [] == Takes(d);
    assert [] + Takes(d) == Takes(d);
  }

  lemma RenderSingle(d: Directive, args: seq<Arg>, k: nat)
    ensures Render([d], args, k) == RenderOne(d, args, k)
  {
    assert Render([d], args, k) == RenderOne(d, args, k) + [];
  }

  function PrefixTexts(prefix: seq<cchar>): seq<Directive> {
    if prefix == [] then [] else [Text(prefix[0])] + PrefixTexts(prefix[1..])
  }

  lemma {:induction false} RenderTexts(prefix: seq<cchar>, args: seq<Arg>)
    requires forall i :: 0 <= i < |prefix| ==> prefix[i] != '%' && prefix[i] != NUL
    ensures forall i :: 0 <= i < |PrefixTexts(prefix)| ==> Spellable(PrefixTexts(prefix)[i])
    ensures Render(PrefixTexts(prefix), args, 0) == prefix && TakesAll(PrefixTexts(prefix)) == []
  {
    if prefix != [] {
      RenderTexts(prefix[1..], args);
      assert PrefixTexts(prefix)[1..] == PrefixTexts(prefix[1..]);
      assert prefix == [prefix[0]] + prefix[1..];
    }
  }

  // ---- Zero padding and decimal numbers ----

  lemma {:induction false} OctalBelowDecimal(s: seq<cchar>)
    requires AllDigits(s, 8)
    ensures Horner(s, 8) <= Horner(s, 10)
    ensures |s| >= 2 && s[0] != '0' ==> Horner(s, 8) < Horner(s, 10)
    ensures s != [] && s[0] != '0' ==> Horner(s, 8) > 0
    decreases |s|
  {
    if s != [] {
      OctalBelowDecimal(s[..|s| - 1]);
      if |s| == 1 { DigitsAccepted(s[0], 8); assert s[..0] == []; }
    }
  }

  /**
   * A leading zero makes a decimal number octal for xatoi, and zero padding goes in front of
   * the sign. "%0<w>ld" is read back exactly when no zero was put in or the value is 0 to 7.
   */
  lemma ZeroPaddedDecimal(width: u32, v: i32)
    ensures var d := Spec(Zero, Fixed(width), Unlimited, Long, 'd');
            var t := RenderOne(d, [Word(ToU32(v))], 0);
            TokenValue(t) == Some(v) <==> width <= |NumberText('d', v)| || 0 <= v < 8
  {
    var d := Spec(Zero, Fixed(width), Unlimited, Long, 'd');
    var text := NumberText('d', v);
    var pad := Max(width - |text|, 0);
    var t := Repeat('0', pad) + text;
    WordRoundTrip(v);
    assert RenderOne(d, [Word(ToU32(v))], 0) == t;
    NumberTextShowsValue('d', v);
    NumeralToken(v);
    if pad == 0 {
      assert t == text;
    } else {
      PaddedDecimalToken(pad, v);
    }
  }

  lemma PaddedDecimalToken(pad: nat, v: i32)
    requires pad > 0
    ensures TokenValue(Repeat('0', pad) + NumberText('d', v)) == Some(v) <==> 0 <= v < 8
  {
    hide Horner, Numeral, CharDigit, NumberText;
    var text := NumberText('d', v);
    var t := Repeat('0', pad) + text;
    NumberTextShowsValue('d', v);
    assert t[1..] == Repeat('0', pad - 1) + text;
    assert t[0] == '0' && t[1] !in {'x', 'b'} by {
      if pad == 1 { assert t[1] == text[0]; if v >= 0 { DigitsAccepted(text[0], 10); } }
    }
    assert TokenValue(t) == if AllDigits(t[1..], 8) then Some(ToI32(Horner(t[1..], 8))) else None;
    if v < 0 {
      assert t[1..][pad - 1] == '-';
      assert !IsDigit('-', 8) by { DigitsAccepted('-', 8); }
    } else if AllDigits(text, 8) {
      LeadingZeros(pad - 1, text, 8);
      OctalBelowDecimal(text);
      SmallNumeral(v);
    } else {
      SmallNumeral(v);
      NotAllDigits(pad - 1, text);
    }
  }

  lemma NotAllDigits(k: nat, s: seq<cchar>)
    requires !AllDigits(s, 8)
    ensures !AllDigits(Repeat('0', k) + s, 8)
  {
    var i :| 0 <= i < |s| && !IsDigit(s[i], 8);
    assert (Repeat('0', k) + s)[k + i] == s[i];
  }

  /** Exactly the values 0 to 9 have one digit, and 8 and 9 are not octal. */
  lemma SmallNumeral(v: nat)
    requires v < TWO63
    ensures |NumberText('d', v)| == 1 <==> v < 10
    ensures v < 8 ==> AllDigits(NumberText('d', v), 8) && Horner(NumberText('d', v), 8) == v
    ensures 8 <= v < 10 ==> !AllDigits(NumberText('d', v), 8)
    ensures v > 0 ==> NumberText('d', v)[0] != '0'
    ensures Horner(NumberText('d', v), 10) == v
  {
    hide Horner, CharDigit, DigitChar, Front, Last;
    NumberTextShowsValue('d', v);
    assert NumberText('d', v) == Numeral(v, 10, 'd', 32);
    if v < 10 {
      LastUnique(v, 10, 0, v);
      assert NumberText('d', v) == [DigitChar(v, 'd')];
      DigitRoundTrip(v, 10, 'd');
      DigitsAccepted(DigitChar(v, 'd'), 8);
      HornerSingle(DigitChar(v, 'd'), 8);
    } else {
      FrontLast(v, 10);
      assert Front(v, 10) > 0;
    }
  }
}
