/** string_to_bitmap (bitmap.c): parsing lists of numbers, ranges and strided ranges. A C string
    pointer is the rest of the string from that position. */
module BitmapList {
  import opened Bits
  import opened Bitmap

  datatype Option<T> = None | Some(value: T)

  predicate IsDigit(c: char) { '0' <= c <= '9' }

  // ----- tokenisers ------------------------------------------------------------------------

  /** strchr and one step further; None is the NULL pointer. */
  function After(q: string, sep: char): (r: Option<string>)
    ensures r.Some? ==> |r.value| < |q|
  {
    if q == [] then None else if q[0] == sep then Some(q[1..]) else After(q[1..], sep)
  }

  /** nexttoken, which keeps NULL. */
  function NextToken(q: Option<string>, sep: char): Option<string> {
    if q.None? then None else After(q.value, sep)
  }

  /** The digits at the front of a string. */
  function Digits(p: string): (d: string)
    ensures |d| <= |p| && p[..|d|] == d
  {
    if p != [] && IsDigit(p[0]) then [p[0]] + Digits(p[1..]) else []
  }

  /** The value of a digit string. */
  function Value(d: string): nat {
    if d == [] then 0 else 10 * Value(d[..|d| - 1]) + DigitOf(d[|d| - 1])
  }

  function DigitOf(c: char): nat { if IsDigit(c) then c as int - '0' as int else 0 }

  /** nextnumber: fails on a missing digit and on a number that does not fit in 64 bits; the
      result is cut to 32 bits. */
  function NextNumber(p: string): (r: Option<(string, u32)>)
    ensures r.Some? ==> |r.value.0| < |p|
  {
    var d := Digits(p);
    if d == [] || Value(d) >= W64 then None else Some((p[|d|..], Wrap32(Value(d))))
  }

  /** Is the separator found at `c1` before the next comma at `c2`? */
  predicate Before(c1: Option<string>, c2: Option<string>) {
    c1.Some? && (c2.None? || |c1.value| > |c2.value|)
  }

  // ----- the parser as a function ------------------------------------------------------------

  /** Setting a, a + s, ... up to b, with 32-bit wrap-around; None when one is not below nbits. */
  function Mark(a: u32, b: u32, s: u32, nbits: nat, acc: set<nat>): (r: Option<set<nat>>)
    requires s > 0 && nbits <= 0x7fff_ffff
    decreases Rank(a, s, nbits)
  {
    if a > b then Some(acc)
    else if a >= nbits then None
    else
      RankFalls(a, s, nbits);
      Mark(Wrap32(a + s), b, s, nbits, acc + {a})
  }

  /** Why the marking loop ends for every stride: a small stride climbs to nbits, a large one
      wraps downwards or jumps past nbits. */
  function Rank(a: u32, s: u32, nbits: nat): (r: nat)
    requires nbits <= 0x7fff_ffff
  {
    if a >= nbits then 0 else if s < 0x8000_0000 then nbits - a else a + 1
  }

  /** One element of the list: its numbers and where its last number ends. */
  datatype Element = Element(a: u32, b: u32, s: u32, end: string)

  function ParseElement(p: string): (r: Option<Element>) {
    match NextNumber(p)
    case None => None
    case Some((end, a)) =>
      var c2 := After(end, ',');
      var c1 := After(end, '-');
      if !Before(c1, c2) then Some(Element(a, a, 1, end))
      else ParseRange(c1.value, c2, a)
  }

  function ParseRange(p: string, c2: Option<string>, a: u32): (r: Option<Element>) {
    match NextNumber(p)
    case None => None
    case Some((end, b)) =>
      var c1 := After(end, ':');
      if !Before(c1, c2) then Some(Element(a, b, 1, end))
      else
        match NextNumber(c1.value)
        case None => None
        case Some((end2, s)) => if s == 0 then None else Some(Element(a, b, s, end2))
  }

  /** The list from `p` on. */
  function Parse(p: string, nbits: nat, acc: set<nat>): (r: Option<set<nat>>)
    requires nbits <= 0x7fff_ffff
    decreases |p|
  {
    match ParseElement(p)
    case None => None
    case Some(e) =>
      if e.a > e.b || e.s == 0 then None
      else
        var marked := Mark(e.a, e.b, e.s, nbits, acc);
        if marked.None? then None
        else
          match After(p, ',')
          case None => if e.end == [] then marked else None
          case Some(q) => Parse(q, nbits, marked.value)
  }

  // ----- the parser in place -----------------------------------------------------------------

  /** The inner loop of string_to_bitmap. */
  method MarkRange(bits: array<u64>, a0: u32, b: u32, s: u32, nbits: nat, ghost acc: set<nat>) returns (ret: nat)
    requires s > 0 && nbits <= 0x7fff_ffff && LongSize(nbits) <= bits.Length && Holds(bits, nbits, acc)
    modifies bits
    ensures ret == (if Mark(a0, b, s, nbits, acc).Some? then 0 else 1)
    ensures ret == 0 ==> Holds(bits, nbits, Mark(a0, b, s, nbits, acc).value)
  {
    hide Test, Rank, LongSize;
    var a: u32 := a0;
    ghost var done: set<nat> := acc;
    RoomFor(nbits, bits.Length);
    while a <= b
      invariant Holds(bits, nbits, done) && Mark(a, b, s, nbits, done) == Mark(a0, b, s, nbits, acc)
      decreases Rank(a, s, nbits)
    {
      if a >= nbits {
        return 1;
      }
      RankFalls(a, s, nbits);
      Set(bits, a);
      done := done + {a};
      a := Wrap32(a + s);
    }
    ret := 0;
  }

  lemma RankFalls(a: u32, s: u32, nbits: nat)
    requires s > 0 && a < nbits <= 0x7fff_ffff
    ensures Rank(Wrap32(a + s), s, nbits) < Rank(a, s, nbits)
  {
  }

  /** The tokens of one element. */
  method ReadElement(p: string) returns (ok: bool, a: u32, b: u32, s: u32, end: string)
    ensures ok <==> ParseElement(p).Some?
    ensures ok ==> ParseElement(p).value == Element(a, b, s, end)
  {
    a, b, s, end := 0, 0, 1, [];
    var first := NextNumber(p);
    if first.None? {
      return false, a, b, s, end;
    }
    end, a := first.value.0, first.value.1;
    b, s := a, 1;
    var c1 := After(end, '-');
    var c2 := After(end, ',');
    if c1.Some? && (c2.None? || |c1.value| > |c2.value|) {
      var second := NextNumber(c1.value);
      if second.None? {
        return false, a, b, s, end;
      }
      end, b := second.value.0, second.value.1;
      c1 := if end != [] then After(end, ':') else None;
      if c1.Some? && (c2.None? || |c1.value| > |c2.value|) {
        var third := NextNumber(c1.value);
        if third.None? {
          return false, a, b, s, end;
        }
        end, s := third.value.0, third.value.1;
        if s == 0 {
          return false, a, b, s, end;
        }
      }
    }
    ok := true;
  }

  /** string_to_bitmap: 0 exactly when the list parses, and then the bitmap is the set listed. */
  method StringToBitmap(str: string, bits: array<u64>, nbits: nat) returns (ret: nat)
    requires nbits <= 0x7fff_ffff && LongSize(nbits) <= bits.Length
    modifies bits
    ensures ret == (if Parse(str, nbits, {}).Some? then 0 else 1)
    ensures ret == 0 ==> Holds(bits, nbits, Parse(str, nbits, {}).value)
  {
    hide Test, Mark, ParseElement, LongSize, Holds;
    var q := Some(str);
    var end := str;
    ghost var acc: set<nat> := {};
    Clear(bits, nbits);
    while q.Some?
      invariant q.Some? ==> Parse(q.value, nbits, acc) == Parse(str, nbits, {})
      invariant q.None? ==> Parse(str, nbits, {}) == if end == [] then Some(acc) else None
      invariant Holds(bits, nbits, acc)
      decreases if q.Some? then |q.value| + 1 else 0
    {
      var p := q.value;
      q := NextToken(q, ',');
      var ok, a, b, s;
      ok, a, b, s, end := ReadElement(p);
      if !ok {
        return 1;
      }
      if !(a <= b) {
        return 1;
      }
      PositiveStride(p);
      var ret := MarkRange(bits, a, b, s, nbits, acc);
      if ret != 0 {
        return 1;
      }
      acc := Mark(a, b, s, nbits, acc).value;
    }
    if end != [] {
      return 1;
    }
    ret := 0;
  }

  lemma PositiveStride(p: string)
    ensures ParseElement(p).Some? ==> ParseElement(p).value.s > 0
  {
  }

  // ----- what a list means -------------------------------------------------------------------

  /** One element as it is written: a number, a range, or a range with a stride. */
  datatype Item = Single(a: string) | Range(a: string, b: string) | Strided(a: string, b: string, s: string)

  function RenderItem(it: Item): string {
    match it
    case Single(a) => a
    case Range(a, b) => a + ("-" + b)
    case Strided(a, b, s) => a + ("-" + (b + (":" + s)))
  }

  /** The elements, each with other text behind it, separated by commas. */
  function Render(items: seq<Item>, texts: seq<string>): string
    requires items != [] && |texts| == |items|
  {
    if |items| == 1 then RenderItem(items[0]) + texts[0]
    else RenderItem(items[0]) + (texts[0] + ("," + Render(items[1..], texts[1..])))
  }

  /** Text that is neither part of a number nor a separator. */
  predicate Text(g: string) { (g == [] || !IsDigit(g[0])) && ',' !in g && '-' !in g && ':' !in g }

  /** How a number is written in decimal. */
  function Decimal(n: nat): (d: string)
    ensures d != []
  {
    if n < 10 then ["0123456789"[n]] else Decimal(n / 10) + ["0123456789"[n % 10]]
  }

  /** A number that is written in decimal is read as that number. */
  lemma {:induction false} DecimalRead(n: nat)
    ensures Value(Decimal(n)) == n && forall i :: 0 <= i < |Decimal(n)| ==> IsDigit(Decimal(n)[i])
  {
    DigitRead(n % 10);
    if n < 10 {
      SmallMod(n, 10);
      assert Decimal(n)[..0] == [];
    } else {
      DecimalRead(n / 10);
      var d := Decimal(n);
      assert d[..|d| - 1] == Decimal(n / 10);
    }
  }

  lemma DigitRead(k: nat)
    requires k < 10
    ensures var c := "0123456789"[k]; IsDigit(c) && DigitOf(c) == k
  {
  }

  /** Every number that fits in 64 bits is read and cut to 32 bits, a larger one is refused. */
  lemma NumberCut(n: nat, t: string)
    requires t == [] || !IsDigit(t[0])
    ensures NextNumber(Decimal(n) + t) == if n <= 0xffff_ffff_ffff_ffff then Some((t, n % 0x1_0000_0000)) else None
  {
    hide Value, Decimal, Digits;
    DecimalRead(n);
    DigitsOf(Decimal(n), t);
    assert (Decimal(n) + t)[|Decimal(n)|..] == t;
  }

  /** A number below 2^31, leading zeros allowed. */
  predicate Number(d: string) { d != [] && (forall i :: 0 <= i < |d| ==> IsDigit(d[i])) && Value(d) < 0x8000_0000 }

  predicate WellFormed(it: Item) {
    match it
    case Single(a) => Number(a)
    case Range(a, b) => Number(a) && Number(b)
    case Strided(a, b, s) => Number(a) && Number(b) && Number(s)
  }

  function Low(it: Item): nat { Value(it.a) }
  function High(it: Item): nat { if it.Single? then Value(it.a) else Value(it.b) }
  function Stride(it: Item): nat { if it.Strided? then Value(it.s) else 1 }

  /** a, a + s, a + 2s, ... up to b. */
  function Listed(a: nat, b: nat, s: nat): set<nat>
    decreases if a <= b then b - a + 1 else 0
  {
    if a > b || s == 0 then {} else {a} + Listed(a + s, b, s)
  }

  lemma {:induction false} ListedExact(a: nat, b: nat, s: nat, x: nat)
    requires s > 0
    ensures x in Listed(a, b, s) <==> x <= b && exists k: nat :: x == a + k * s
    decreases if a <= b then b - a + 1 else 0
  {
    if a <= b {
      ListedExact(a + s, b, s, x);
      if x <= b && exists k: nat :: x == a + k * s {
        var k: nat :| x == a + k * s;
        if k > 0 { assert x == a + s + (k - 1) * s; }
      }
      if x in Listed(a, b, s) {
        if x == a {
          assert x == a + 0 * s;
        } else {
          var k: nat :| x == a + s + k * s;
          assert x == a + (k + 1) * s;
        }
      }
    } else {
      forall k: nat ensures x == a + k * s ==> x >= a { }
    }
  }

  /** An ascending range with a positive stride, all of whose members fit. */
  ghost predicate Legal(it: Item, nbits: nat) {
    Low(it) <= High(it) && Stride(it) > 0 && forall x :: x in Listed(Low(it), High(it), Stride(it)) ==> x < nbits
  }

  ghost predicate AllLegal(items: seq<Item>, nbits: nat) { forall i :: 0 <= i < |items| ==> Legal(items[i], nbits) }

  function Union(items: seq<Item>): set<nat> {
    if items == [] then {} else Listed(Low(items[0]), High(items[0]), Stride(items[0])) + Union(items[1..])
  }

  // ----- tokens of rendered lists ------------------------------------------------------------

  /** What may follow an element: the first comma comes before any other separator. */
  predicate Tail(t: string) {
    && (t == [] || !IsDigit(t[0]))
    && !Before(After(t, '-'), After(t, ',')) && !Before(After(t, ':'), After(t, ','))
  }

  /** Text, and then the next element or the end. */
  lemma TextTail(g: string, u: string)
    requires Text(g) && (u == [] || u[0] == ',')
    ensures Tail(g + u) && After(g + u, ',') == After(u, ',')
  {
    hide After;
    AfterDigits(g, u, ',');
    AfterDigits(g, u, '-');
    AfterDigits(g, u, ':');
    EndOrComma(u);
    if g == [] { assert g + u == u; }
  }

  lemma EndOrComma(u: string)
    requires u == [] || u[0] == ','
    ensures !Before(After(u, '-'), After(u, ',')) && !Before(After(u, ':'), After(u, ','))
  {
  }

  lemma {:induction false} DigitsOf(d: string, t: string)
    requires forall i :: 0 <= i < |d| ==> IsDigit(d[i])
    requires t == [] || !IsDigit(t[0])
    ensures Digits(d + t) == d
  {
    if d == [] {
      assert d + t == t;
    } else {
      assert (d + t)[1..] == d[1..] + t;
      DigitsOf(d[1..], t);
    }
  }

  lemma NumberRead(d: string, t: string)
    requires Number(d) && (t == [] || !IsDigit(t[0]))
    ensures NextNumber(d + t) == Some((t, Value(d)))
  {
    hide Value;
    DigitsOf(d, t);
    assert (d + t)[|d|..] == t;
  }

  lemma {:induction false} AfterDigits(d: string, t: string, sep: char)
    requires forall i :: 0 <= i < |d| ==> d[i] != sep
    ensures After(d + t, sep) == After(t, sep)
  {
    if d == [] {
      assert d + t == t;
    } else {
      assert (d + t)[1..] == d[1..] + t;
      AfterDigits(d[1..], t, sep);
    }
  }

  lemma NoSeparator(d: string, sep: char)
    requires Number(d) && !IsDigit(sep)
    ensures forall i :: 0 <= i < |d| ==> d[i] != sep
  {
    hide Value;
  }

  lemma AfterFirst(sep: char, t: string)
    ensures After([sep] + t, sep) == Some(t)
    ensures forall c :: c != sep ==> After([sep] + t, c) == After(t, c)
  {
    assert ([sep] + t)[1..] == t;
  }

  /** One written element is read as its three numbers. */
  lemma ItemRead(it: Item, t: string)
    requires WellFormed(it) && Tail(t)
    ensures ParseElement(RenderItem(it) + t) ==
      if it.Strided? && Stride(it) == 0 then None else Some(Element(Low(it), High(it), Stride(it), t))
  {
    hide Value, After, Digits, NextNumber;
    match it
    case Single(a) =>
      NumberRead(a, t);
    case Range(a, b) =>
      assert RenderItem(it) + t == a + ("-" + (b + t));
      NumberRead(a, "-" + (b + t));
      RangeStart(b, t);
      NumberRead(b, t);
    case Strided(a, b, s) =>
      assert RenderItem(it) + t == a + ("-" + (b + (":" + (s + t))));
      NumberRead(a, "-" + (b + (":" + (s + t))));
      StrideStart(s, t);
      RangeStart(b, ":" + (s + t));
      NumberRead(b, ":" + (s + t));
      NumberRead(s, t);
  }

  /** The separators in front of the end of a range, with `t` behind it. */
  lemma RangeStart(b: string, t: string)
    requires Number(b)
    ensures var r := "-" + (b + t);
      && After(r, '-') == Some(b + t) && After(r, ',') == After(t, ',')
      && Before(After(r, '-'), After(r, ','))
  {
    hide Value;
    AfterFirst('-', b + t);
    NoSeparator(b, ',');
    AfterDigits(b, t, ',');
  }

  lemma StrideStart(s: string, t: string)
    requires Number(s)
    ensures var r := ":" + (s + t);
      && After(r, ':') == Some(s + t) && After(r, ',') == After(t, ',')
      && Before(After(r, ':'), After(t, ','))
  {
    hide Value;
    AfterFirst(':', s + t);
    NoSeparator(s, ',');
    AfterDigits(s, t, ',');
  }

  lemma SkipNumber(d: string, t: string)
    requires Number(d)
    ensures After(d + t, ',') == After(t, ',')
  {
    hide Value, After;
    NoSeparator(d, ',');
    AfterDigits(d, t, ',');
  }

  /** The next element starts behind the comma. */
  lemma ItemSkipped(it: Item, t: string)
    requires WellFormed(it)
    ensures After(RenderItem(it) + t, ',') == After(t, ',')
  {
    hide Number, After;
    match it
    case Single(a) =>
      SkipNumber(a, t);
    case Range(a, b) =>
      SkipNumber(a, "-" + (b + t));
      AfterFirst('-', b + t);
      SkipNumber(b, t);
      assert RenderItem(it) + t == a + ("-" + (b + t));
    case Strided(a, b, s) =>
      SkipNumber(a, "-" + (b + (":" + (s + t))));
      AfterFirst('-', b + (":" + (s + t)));
      SkipNumber(b, ":" + (s + t));
      AfterFirst(':', s + t);
      SkipNumber(s, t);
      assert RenderItem(it) + t == a + ("-" + (b + (":" + (s + t))));
  }

  /** With numbers below 2^31 the marking loop sets exactly the members, or fails on the first
      that does not fit. */
  lemma {:induction false} MarkExact(a: nat, b: nat, s: nat, nbits: nat, acc: set<nat>)
    requires 0 < s < 0x8000_0000 && b < 0x8000_0000 && a < W32 && nbits <= 0x7fff_ffff
    ensures Mark(a, b, s, nbits, acc) ==
      if forall x :: x in Listed(a, b, s) ==> x < nbits then Some(acc + Listed(a, b, s)) else None
    decreases if a <= b then b - a + 1 else 0
  {
    if a <= b {
      assert Wrap32(a + s) == a + s;
      assert a in Listed(a, b, s);
      if a < nbits {
        MarkExact(a + s, b, s, nbits, acc + {a});
        assert acc + {a} + Listed(a + s, b, s) == acc + Listed(a, b, s);
      }
    } else {
      assert acc + {} == acc;
    }
  }

  // ----- the theorem -------------------------------------------------------------------------

  /** On every list of well-formed elements with other text behind them the parser succeeds exactly when every range
      and stride is legal, every listed number is below nbits, and nothing stands behind the last element; the result
      is then exactly the union. Text behind another element is not noticed. */
  lemma {:induction false} ParseExact(items: seq<Item>, texts: seq<string>, nbits: nat, acc: set<nat>)
    requires items != [] && |texts| == |items| && nbits <= 0x7fff_ffff
    requires forall i :: 0 <= i < |items| ==> WellFormed(items[i]) && Text(texts[i])
    ensures Parse(Render(items, texts), nbits, acc) ==
      if AllLegal(items, nbits) && texts[|texts| - 1] == [] then Some(acc + Union(items)) else None
    decreases |items|
  {
    hide Value, After, Digits, NextNumber, ParseElement, Mark, RenderItem, WellFormed, Legal, Listed, Text, Tail;
    var it, rest := items[0], items[1..];
    var u := if rest == [] then [] else "," + Render(rest, texts[1..]);
    var t := texts[0] + u;
    assert Render(items, texts) == RenderItem(it) + t by { assert texts[0] + [] == texts[0]; }
    TextTail(texts[0], u);
    ItemRead(it, t);
    ItemSkipped(it, t);
    FirstItem(it, nbits, acc);
    LegalSplit(items, nbits);
    if rest == [] {
      AfterNothing();
      assert t == texts[0];
      assert Union(rest) == {} && Listed(Low(it), High(it), Stride(it)) + {} == Listed(Low(it), High(it), Stride(it));
    } else {
      AfterFirst(',', Render(rest, texts[1..]));
      var acc' := acc + Listed(Low(it), High(it), Stride(it));
      ParseExact(rest, texts[1..], nbits, acc');
      assert acc' + Union(rest) == acc + Union(items);
    }
  }

  lemma AfterNothing()
    ensures After([], ',') == None
  {
  }

  lemma LegalSplit(items: seq<Item>, nbits: nat)
    requires items != []
    ensures AllLegal(items, nbits) <==> Legal(items[0], nbits) && AllLegal(items[1..], nbits)
  {
    hide Legal;
    if AllLegal(items[1..], nbits) && Legal(items[0], nbits) {
      forall i | 0 <= i < |items| ensures Legal(items[i], nbits) {
        if i > 0 { assert items[i] == items[1..][i - 1]; }
      }
    }
  }

  lemma Bounds(it: Item)
    requires WellFormed(it)
    ensures Low(it) < 0x8000_0000 && High(it) < 0x8000_0000 && Stride(it) < 0x8000_0000
  {
    hide Value;
  }

  lemma FirstItem(it: Item, nbits: nat, acc: set<nat>)
    requires WellFormed(it) && nbits <= 0x7fff_ffff
    ensures Low(it) < 0x8000_0000 && High(it) < 0x8000_0000 && Stride(it) < 0x8000_0000
    ensures Low(it) <= High(it) && Stride(it) > 0 ==>
      Mark(Low(it), High(it), Stride(it), nbits, acc) ==
        if Legal(it, nbits) then Some(acc + Listed(Low(it), High(it), Stride(it))) else None
    ensures Low(it) > High(it) || Stride(it) == 0 ==> !Legal(it, nbits)
  {
    hide Value, Mark, Listed, WellFormed, Low, High, Stride;
    Bounds(it);
    if Low(it) <= High(it) && Stride(it) > 0 { MarkExact(Low(it), High(it), Stride(it), nbits, acc); }
  }
}
