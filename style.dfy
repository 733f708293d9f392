/** The style engine of index.js: composing ANSI SGR descriptors into style
    functions, de-duplicating their codes, and the fixed table of styles.

    A JavaScript style function is modelled by the one thing the library reads back
    from it, its token list `_s`: a `StyleFn` is that list, and `Apply` is the
    emitter closure built from it. */
module AnsiStyle {
  import opened Strings

  /** An SGR parameter: a number (rendered in decimal) or a string such as "38;5;208". */
  datatype Code = Num(n: nat) | Str(s: string)

  /** A well-formed `{o, c}` descriptor: the opening and the closing code. */
  datatype Token = Token(o: Code, c: Code)

  /** The value of an `o` or `c` property: a code, or anything else (missing,
      null, a boolean, an object ...). */
  datatype Field = Is(code: Code) | NotCode

  /** A style function: its de-duplicated token list `_s`. */
  datatype StyleFn = StyleFn(tokens: seq<Token>)
  {
    /** The `;`-joined open codes, each distinct code once. */
    function Opens(): string
    {
      Join(MapSeq(CodeText, Uniq(MapSeq(OpenOf, tokens))), ";")
    }

    /** The `;`-joined close codes, each distinct code once. */
    function Closes(): string
    {
      Join(MapSeq(CodeText, Uniq(MapSeq(CloseOf, tokens))), ";")
    }

    /** The emitter: `ESC[<opens>m<str>ESC[<closes>m`. */
    function Apply(str: string): string
    {
      Prefix(Opens()) + str + Prefix(Closes())
    }
  }

  /** A colour: the normal style function with its `.bright` variant. */
  datatype ColorStyle = ColorStyle(normal: StyleFn, bright: StyleFn)

  /** An argument of `style(...)`. */
  datatype Arg =
    | Fn(style: StyleFn)              // a function made by `style`, carrying `_s`
    | PlainFn                         // any other function
    | Descriptor(o: Field, c: Field)  // a plain object; only `o` and `c` are read
    | List(items: seq<Arg>)           // an array, flattened one level
    | Other                           // a number, string, null, class instance ...

  const ESC: char := 27 as char

  /** `ESC [ params m` */
  function Prefix(params: string): string
  {
    [ESC, '['] + params + "m"
  }

  function OpenOf(t: Token): Code { t.o }
  function CloseOf(t: Token): Code { t.c }

  function Digit(d: nat): char
    requires d < 10
  {
    (48 + d) as char
  }

  /** A natural number in decimal, as a template literal renders it: digits
      that read back as `n`, with no leading zero. */
  function NatText(n: nat): (r: string)
    ensures |r| >= 1
    ensures IsDigits(r) && DecimalValue(r) == n
    ensures |r| > 1 ==> r[0] != '0'
  {
    if n < 10 then [Digit(n)]
    else
      var r := NatText(n / 10) + [Digit(n % 10)];
      assert r[..|r| - 1] == NatText(n / 10);
      r
  }

  predicate IsDigits(s: string)
  {
    forall i :: 0 <= i < |s| ==> '0' <= s[i] <= '9'
  }

  /** The number a string of decimal digits denotes, read left to right. */
  function DecimalValue(s: string): nat
    requires IsDigits(s)
  {
    if |s| == 0 then 0 else DecimalValue(s[..|s| - 1]) * 10 + (s[|s| - 1] as nat - '0' as nat)
  }

  function CodeText(code: Code): string
  {
    match code
    case Num(n) => NatText(n)
    case Str(s) => s
  }

  /** One argument after the `map` and the one-level flatten of index.js:11: a
      style function contributes its tokens, an array its items, anything else
      itself. */
  function Spread(a: Arg): seq<Arg>
  {
    match a
    case Fn(f) => MapSeq(AsArg, f.tokens)
    case List(items) => items
    case _ => [a]
  }

  function AsArg(t: Token): Arg
  {
    Descriptor(Is(t.o), Is(t.c))
  }

  /** `_flatten(sty.map(...))` */
  function Expand(args: seq<Arg>): seq<Arg>
  {
    if |args| == 0 then [] else Spread(args[0]) + Expand(args[1..])
  }

  /** The filter of index.js:11: keep plain objects whose `o` and `c` are codes. */
  function Descriptors(args: seq<Arg>): (r: seq<Token>)
    ensures |r| <= |args|
  {
    if |args| == 0 then []
    else
      var rest := Descriptors(args[1..]);
      match args[0]
      case Descriptor(Is(o), Is(c)) => [Token(o, c)] + rest
      case _ => rest
  }

  /** `style(...sty)`: the composed style function. */
  function Compose(args: seq<Arg>): (f: StyleFn)
    ensures NoDup(f.tokens)
    ensures forall i :: 0 <= i < |f.tokens| ==> f.tokens[i] in Descriptors(Expand(args))
    ensures forall t :: t in Descriptors(Expand(args)) ==> t in f.tokens
  {
    StyleFn(Uniq(Descriptors(Expand(args))))
  }

  /** `p(o, c)`: a raw descriptor. */
  function P(o: Code, c: Code): Arg
  {
    Descriptor(Is(o), Is(c))
  }

  /** `bright(normal, bright)`: a style whose `.bright` is a second style. */
  function Bright(normal: Arg, bright: Arg): ColorStyle
  {
    ColorStyle(Compose([normal]), Compose([bright]))
  }

  // ---- the `styles` table ----

  const BOLD: StyleFn := Compose([P(Num(1), Num(22))])
  const DIM: StyleFn := Compose([P(Num(2), Num(22))])
  const ITALIC: StyleFn := Compose([P(Num(3), Num(23))])
  const UNDERLINE: StyleFn := Compose([P(Num(4), Num(24))])
  const BLACK: ColorStyle := Color(0)
  const RED: ColorStyle := Color(1)
  const GREEN: ColorStyle := Color(2)
  const YELLOW: ColorStyle := Color(3)
  const BLUE: ColorStyle := Color(4)
  const MAGENTA: ColorStyle := Color(5)
  const CYAN: ColorStyle := Color(6)
  const WHITE: ColorStyle := Color(7)

  /** Colour number `k` of the table, black to white: `bright(p(30 + k, 39), p(90 + k, 39))`. */
  function Color(k: nat): ColorStyle
    requires k < 8
  {
    Bright(P(Num(30 + k), Num(39)), P(Num(90 + k), Num(39)))
  }

  // ---- the emitter ----

  /** Strips the fixed escape prefix and suffix of `f` from `r`, if they are there. */
  function Unstyle(f: StyleFn, r: string): Option<string>
  {
    var pre, suf := Prefix(f.Opens()), Prefix(f.Closes());
    if |pre| + |suf| <= |r| && r[..|pre|] == pre && r[|r| - |suf|..] == suf
    then Some(r[|pre|..|r| - |suf|])
    else None
  }

  /** The emitter wraps its input in exactly the open and close sequences, so
      removing them recovers the input. */
  lemma ApplyUnstyle(f: StyleFn, s: string)
    ensures Unstyle(f, f.Apply(s)) == Some(s)
    ensures f.Apply(s)[0] == ESC && f.Apply(s)[|f.Apply(s)| - 1] == 'm'
  {
    var pre, suf := Prefix(f.Opens()), Prefix(f.Closes());
    var r := f.Apply(s);
    assert r == pre + s + suf;
    assert r[..|pre|] == pre;
    assert r[|r| - |suf|..] == suf;
    assert r[|pre|..|r| - |suf|] == s;
  }

  /** Different inputs give different outputs. */
  lemma ApplyInjective(f: StyleFn, s: string, t: string)
    requires f.Apply(s) == f.Apply(t)
    ensures s == t
  {
    ApplyUnstyle(f, s);
    ApplyUnstyle(f, t);
  }

  // ---- composition ----

  lemma {:induction false} ExpandAppend(a: seq<Arg>, b: seq<Arg>)
    ensures Expand(a + b) == Expand(a) + Expand(b)
  {
    if |a| > 0 {
      ExpandAppend(a[1..], b);
      assert (a + b)[1..] == a[1..] + b;
    } else {
      assert a + b == b;
    }
  }

  lemma {:induction false} DescriptorsAppend(a: seq<Arg>, b: seq<Arg>)
    ensures Descriptors(a + b) == Descriptors(a) + Descriptors(b)
  {
    if |a| > 0 {
      DescriptorsAppend(a[1..], b);
      assert (a + b)[1..] == a[1..] + b;
    } else {
      assert a + b == b;
    }
  }

  /** A token survives the filter exactly when a well-formed descriptor with its
      two codes is among the arguments. */
  lemma {:induction false} DescriptorsMember(args: seq<Arg>, t: Token)
    ensures t in Descriptors(args) <==> Descriptor(Is(t.o), Is(t.c)) in args
  {
    if |args| > 0 {
      DescriptorsMember(args[1..], t);
      assert args == [args[0]] + args[1..];
    }
  }

  /** Tokens read back from `_s` pass the filter unchanged. */
  lemma {:induction false} DescriptorsOfTokens(ts: seq<Token>)
    ensures Descriptors(MapSeq(AsArg, ts)) == ts
  {
    if |ts| > 0 {
      DescriptorsOfTokens(ts[1..]);
      assert MapSeq(AsArg, ts)[1..] == MapSeq(AsArg, ts[1..]);
    }
  }

  /** Re-composing a style function alone gives the same style function:
      `style(f)` emits exactly what `f` emits. */
  lemma ComposeIdempotent(args: seq<Arg>)
    ensures Compose([Fn(Compose(args))]) == Compose(args)
  {
    var f := Compose(args);
    assert Expand([Fn(f)]) == MapSeq(AsArg, f.tokens) + Expand([]);
    assert MapSeq(AsArg, f.tokens) + [] == MapSeq(AsArg, f.tokens);
    DescriptorsOfTokens(f.tokens);
    UniqNoDup(f.tokens);
  }

  /** Composition is associative: a composed style passed on to `style` behaves as
      if its arguments had been passed directly; in particular
      `style(style(a, b), c)` and `style(a, b, c)` have the same token list. */
  lemma ComposeNested(a: seq<Arg>, b: seq<Arg>)
    ensures Compose([Fn(Compose(a))] + b) == Compose(a + b)
  {
    var f := Compose(a);
    ExpandAppend([Fn(f)], b);
    ExpandAppend(a, b);
    assert Expand([Fn(f)]) == MapSeq(AsArg, f.tokens) + Expand([]);
    assert MapSeq(AsArg, f.tokens) + [] == MapSeq(AsArg, f.tokens);
    DescriptorsAppend(MapSeq(AsArg, f.tokens), Expand(b));
    DescriptorsAppend(Expand(a), Expand(b));
    DescriptorsOfTokens(f.tokens);
    UniqAbsorbs(Descriptors(Expand(a)), Descriptors(Expand(b)));
  }

  /** Composing in either order gives the same set of tokens (first-seen order may differ). */
  lemma ComposeCommutesAsSet(a: seq<Arg>, b: seq<Arg>, t: Token)
    ensures t in Compose(a + b).tokens <==> t in Compose(b + a).tokens
  {
    ExpandAppend(a, b);
    ExpandAppend(b, a);
    DescriptorsAppend(Expand(a), Expand(b));
    DescriptorsAppend(Expand(b), Expand(a));
  }

  /** An argument the filter drops: nothing in it survives as a descriptor. */
  predicate Dropped(a: Arg)
  {
    match a
    case Fn(f) => f.tokens == []
    case List(items) => forall i :: 0 <= i < |items| ==> !items[i].Descriptor? || items[i].o.NotCode? || items[i].c.NotCode?
    case Descriptor(o, c) => o.NotCode? || c.NotCode?
    case _ => true
  }

  lemma DroppedSpread(a: Arg)
    requires Dropped(a)
    ensures Descriptors(Spread(a)) == []
  {
    match a
    case List(items) => NoDescriptors(items);
    case _ =>
  }

  lemma {:induction false} NoDescriptors(items: seq<Arg>)
    requires forall i :: 0 <= i < |items| ==> !items[i].Descriptor? || items[i].o.NotCode? || items[i].c.NotCode?
    ensures Descriptors(items) == []
  {
    if |items| > 0 {
      NoDescriptors(items[1..]);
    }
  }

  /** Arguments that are not well-formed descriptors are silently dropped. */
  lemma ComposeDropsInvalid(a: seq<Arg>, x: Arg, b: seq<Arg>)
    requires Dropped(x)
    ensures Compose(a + [x] + b) == Compose(a + b)
  {
    ExpandAppend(a + [x], b);
    ExpandAppend(a, [x]);
    ExpandAppend(a, b);
    assert Expand([x]) == Spread(x) + Expand([]);
    assert Spread(x) + [] == Spread(x);
    DescriptorsAppend(Expand(a) + Spread(x), Expand(b));
    DescriptorsAppend(Expand(a), Spread(x));
    DescriptorsAppend(Expand(a), Expand(b));
    DroppedSpread(x);
    assert Descriptors(Expand(a)) + [] == Descriptors(Expand(a));
  }

  /** With no valid descriptor at all, the emitter wraps its input in empty SGR sequences. */
  lemma {:induction false} ComposeNothing(args: seq<Arg>, s: string)
    requires forall i :: 0 <= i < |args| ==> Dropped(args[i])
    ensures Compose(args).Apply(s) == [ESC, '['] + "m" + s + [ESC, '['] + "m"
  {
    if |args| > 0 {
      ComposeNothing(args[1..], s);
      ComposeDropsInvalid([], args[0], args[1..]);
      assert [] + [args[0]] + args[1..] == args;
      assert [] + args[1..] == args[1..];
    }
  }

  /** The open string lists each distinct open code of the surviving descriptors
      once, in first-seen order; likewise the close string. */
  lemma ComposeCodes(args: seq<Arg>)
    ensures Compose(args).Opens()
         == Join(MapSeq(CodeText, Uniq(MapSeq(OpenOf, Descriptors(Expand(args))))), ";")
    ensures Compose(args).Closes()
         == Join(MapSeq(CodeText, Uniq(MapSeq(CloseOf, Descriptors(Expand(args))))), ";")
  {
    UniqMapUniq(OpenOf, Descriptors(Expand(args)));
    UniqMapUniq(CloseOf, Descriptors(Expand(args)));
  }

  /** `p(o, c)` composed alone emits exactly its two codes. */
  lemma SingleDescriptor(o: Code, c: Code)
    ensures Compose([P(o, c)]).tokens == [Token(o, c)]
    ensures Compose([P(o, c)]).Opens() == CodeText(o)
    ensures Compose([P(o, c)]).Closes() == CodeText(c)
  {
    ComposeSingle(o, c);
    OneToken(Token(o, c));
  }

  /** Composing one descriptor yields exactly its token. */
  lemma ComposeSingle(o: Code, c: Code)
    ensures Compose([P(o, c)]).tokens == [Token(o, c)]
  {
    assert Expand([P(o, c)]) == [P(o, c)] + Expand([]);
    assert Descriptors([P(o, c)]) == [Token(o, c)];
    assert Uniq([Token(o, c)]) == Uniq([]) + [Token(o, c)];
  }

  /** A style function of one token opens with its open code and closes with its close code. */
  lemma OneToken(t: Token)
    ensures StyleFn([t]).Opens() == CodeText(t.o)
    ensures StyleFn([t]).Closes() == CodeText(t.c)
  {
    assert MapSeq(OpenOf, [t]) == [t.o];
    assert Uniq([t.o]) == Uniq([]) + [t.o];
    assert MapSeq(CodeText, [t.o]) == [CodeText(t.o)];
    assert MapSeq(CloseOf, [t]) == [t.c];
    assert Uniq([t.c]) == Uniq([]) + [t.c];
    assert MapSeq(CodeText, [t.c]) == [CodeText(t.c)];
  }

  /** A colour opens with `open` (its bright variant with `brightOpen`), and both
      close with 39. */
  predicate ColorCodes(color: ColorStyle, open: string, brightOpen: string)
  {
    && color.normal.Opens() == open
    && color.bright.Opens() == brightOpen
    && color.normal.Closes() == "39"
    && color.bright.Closes() == "39"
  }

  /** Every colour opens 30-37 (bright: 90-97) and closes with 39. */
  lemma ColorTable()
    ensures ColorCodes(BLACK, "30", "90") && ColorCodes(RED, "31", "91")
    ensures ColorCodes(GREEN, "32", "92") && ColorCodes(YELLOW, "33", "93")
    ensures ColorCodes(BLUE, "34", "94") && ColorCodes(MAGENTA, "35", "95")
    ensures ColorCodes(CYAN, "36", "96") && ColorCodes(WHITE, "37", "97")
  {
    ColorNumber(0); ColorNumber(1); ColorNumber(2); ColorNumber(3);
    ColorNumber(4); ColorNumber(5); ColorNumber(6); ColorNumber(7);
  }

  /** Colour number `k` opens with the decimal text of 30 + k, its bright variant
      with that of 90 + k. */
  lemma ColorNumber(k: nat)
    requires k < 8
    ensures ColorCodes(Color(k), ['3', Digit(k)], ['9', Digit(k)])
  {
    SingleDescriptor(Num(30 + k), Num(39));
    SingleDescriptor(Num(90 + k), Num(39));
    ColorClose();
    TwoDigits(3, k);
    TwoDigits(9, k);
  }

  /** A two-digit number renders as its two digits. */
  lemma TwoDigits(a: nat, b: nat)
    requires 1 <= a < 10 && b < 10
    ensures NatText(10 * a + b) == [Digit(a), Digit(b)]
  {
    var n := 10 * a + b;
    assert n / 10 == a && n % 10 == b;
    assert NatText(a) == [Digit(a)];
  }

  /** The shared colour close code renders as "39". */
  lemma ColorClose()
    ensures CodeText(Num(39)) == "39"
  {
    TwoDigits(3, 9);
  }

  /** A style function of two tokens: the codes are joined with `;`, and a code the
      two tokens share is emitted once. */
  lemma TwoTokens(t1: Token, t2: Token)
    ensures StyleFn([t1, t2]).Opens()
         == if t1.o == t2.o then CodeText(t1.o) else CodeText(t1.o) + ";" + CodeText(t2.o)
    ensures StyleFn([t1, t2]).Closes()
         == if t1.c == t2.c then CodeText(t1.c) else CodeText(t1.c) + ";" + CodeText(t2.c)
  {
    assert MapSeq(OpenOf, [t1, t2]) == [t1.o, t2.o];
    assert MapSeq(CloseOf, [t1, t2]) == [t1.c, t2.c];
    JoinPair(t1.o, t2.o);
    JoinPair(t1.c, t2.c);
  }

  lemma JoinPair(a: Code, b: Code)
    ensures Join(MapSeq(CodeText, Uniq([a, b])), ";")
         == if a == b then CodeText(a) else CodeText(a) + ";" + CodeText(b)
  {
    UniqPair(a, b);
    var x, y := CodeText(a), CodeText(b);
    if a == b {
      assert MapSeq(CodeText, [a]) == [x];
      assert Join([x], ";") == x;
    } else {
      assert MapSeq(CodeText, [a, b]) == [x, y];
      assert [x, y][1..] == [y];
      assert Join([x, y], ";") == x + ";" + Join([y], ";");
    }
  }

  lemma UniqPair(a: Code, b: Code)
    ensures Uniq([a, b]) == if a == b then [a] else [a, b]
  {
    assert [a, b][..1] == [a];
    assert Uniq([a]) == Uniq([]) + [a];
  }

  /** Two styles that share their close code, such as bold and dim: composed, they
      open with both codes and close with the shared code once. */
  lemma SharedClose(x: Code, y: Code, c: Code)
    requires x != y
    ensures Compose([Fn(Compose([P(x, c)])), Fn(Compose([P(y, c)]))]).Opens() == CodeText(x) + ";" + CodeText(y)
    ensures Compose([Fn(Compose([P(x, c)])), Fn(Compose([P(y, c)]))]).Closes() == CodeText(c)
  {
    var b, d := Token(x, c), Token(y, c);
    SingleDescriptor(x, c);
    SingleDescriptor(y, c);
    PairTokens(b, d);
    TwoTokens(b, d);
  }

  /** Composing two single-token styles with different tokens keeps both, in order. */
  lemma PairTokens(b: Token, d: Token)
    requires b != d
    ensures Compose([Fn(StyleFn([b])), Fn(StyleFn([d]))]) == StyleFn([b, d])
  {
    var args := [Fn(StyleFn([b])), Fn(StyleFn([d]))];
    assert args[1..] == [Fn(StyleFn([d]))];
    assert Expand(args) == Spread(args[0]) + Expand(args[1..]);
    assert Expand(args[1..]) == Spread(args[1]) + Expand([]);
    assert Spread(args[0]) == [AsArg(b)];
    assert Spread(args[1]) == [AsArg(d)];
    assert Expand(args) == MapSeq(AsArg, [b, d]);
    DescriptorsOfTokens([b, d]);
    assert [b, d][..1] == [b];
    assert Uniq([b]) == Uniq([]) + [b];
  }

  /** `style(bold, dim)` opens "1;2" and closes with "22" alone. */
  lemma BoldDim()
    ensures Compose([Fn(BOLD), Fn(DIM)]).Opens() == "1;2"
    ensures Compose([Fn(BOLD), Fn(DIM)]).Closes() == "22"
  {
    SharedClose(Num(1), Num(2), Num(22));
    BoldDimCodes();
  }

  lemma BoldDimCodes()
    ensures CodeText(Num(1)) + ";" + CodeText(Num(2)) == "1;2"
    ensures CodeText(Num(22)) == "22"
  {
    TwoDigits(2, 2);
  }
}
