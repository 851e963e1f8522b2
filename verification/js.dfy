/**
 * The JavaScript values the chart stores in its options and reads from node
 * payloads, with the strict equality (`===`) the guarded setters use and the
 * ordering `d3.ascending` / `d3.descending` apply to node names.
 */
module Js {

  /**
   * A JavaScript value. Numbers are reals (no NaN or infinities). Objects,
   * arrays and user functions are compared by identity, so they carry only an
   * address. `ChartFn` is a function object created by the chart itself (the
   * closure `radius("_COUNT")` installs); each creation gets a new serial.
   */
  datatype JsValue =
    | Undefined
    | Null
    | Bool(b: bool)
    | Num(n: real)
    | Str(s: string)
    | Ref(addr: nat)
    | ChartFn(serial: nat)

  /** `===`: on this representation it coincides with Dafny equality. */
  predicate StrictEquals(a: JsValue, b: JsValue) {
    match (a, b)
    case (Undefined, Undefined) => true
    case (Null, Null) => true
    case (Bool(x), Bool(y)) => x == y
    case (Num(x), Num(y)) => x == y
    case (Str(x), Str(y)) => x == y
    case (Ref(x), Ref(y)) => x == y
    case (ChartFn(x), ChartFn(y)) => x == y
    case _ => false
  }

  lemma StrictEqualsIsEquality(a: JsValue, b: JsValue)
    ensures StrictEquals(a, b) <==> a == b
  {
  }

  /**
   * The UTF-16 code units of one character, as JavaScript strings hold it:
   * a character below U+10000 is one unit; any other is a surrogate pair.
   */
  function CodeUnits(c: char): (u: seq<int>)
    ensures |u| == 1 <==> c as int < 0x1_0000
    ensures |u| == 1 ==> u[0] == c as int && !(0xD800 <= u[0] < 0xE000)
    ensures |u| != 1 ==> |u| == 2 && 0xD800 <= u[0] < 0xDC00 && 0xDC00 <= u[1] < 0xE000
  {
    var v := c as int;
    if v < 0x1_0000 then [v]
    else [0xD800 + (v - 0x1_0000) / 0x400, 0xDC00 + (v - 0x1_0000) % 0x400]
  }

  /** A string's UTF-16 code units, in order. */
  function Utf16(s: string): seq<int> {
    if |s| == 0 then [] else CodeUnits(s[0]) + Utf16(s[1..])
  }

  /** The first character's units, and so the character, can be read off the front of an encoding. */
  lemma CodeUnitsPrefix(c: char, d: char, x: seq<int>, y: seq<int>)
    requires CodeUnits(c) + x == CodeUnits(d) + y
    ensures c == d && x == y
  {
    var u := CodeUnits(c) + x;
    assert u[0] == CodeUnits(c)[0] && u[0] == CodeUnits(d)[0];
    assert |CodeUnits(c)| == |CodeUnits(d)|;
    if |CodeUnits(c)| == 2 {
      assert u[1] == CodeUnits(c)[1] && u[1] == CodeUnits(d)[1];
      var v, w := c as int - 0x1_0000, d as int - 0x1_0000;
      assert v / 0x400 == w / 0x400 && v % 0x400 == w % 0x400;
      assert v == 0x400 * (v / 0x400) + v % 0x400;
      assert w == 0x400 * (w / 0x400) + w % 0x400;
    }
    assert x == u[|CodeUnits(c)|..] && y == u[|CodeUnits(d)|..];
  }

  /** Distinct strings have distinct encodings. */
  lemma {:induction false} Utf16Injective(a: string, b: string)
    requires Utf16(a) == Utf16(b)
    ensures a == b
    decreases |a|
  {
    if |a| > 0 && |b| > 0 {
      CodeUnitsPrefix(a[0], b[0], Utf16(a[1..]), Utf16(b[1..]));
      Utf16Injective(a[1..], b[1..]);
      assert a == [a[0]] + a[1..] && b == [b[0]] + b[1..];
    }
  }

  /** Lexicographic order on code-unit sequences; a proper prefix comes first. */
  predicate UnitsLess(a: seq<int>, b: seq<int>)
    decreases |a|
  {
    if |a| == 0 then |b| > 0
    else if |b| == 0 then false
    else if a[0] != b[0] then a[0] < b[0]
    else UnitsLess(a[1..], b[1..])
  }

  lemma {:induction false} UnitsLessIrreflexive(a: seq<int>)
    ensures !UnitsLess(a, a)
    decreases |a|
  {
    if |a| > 0 {
      UnitsLessIrreflexive(a[1..]);
    }
  }

  lemma {:induction false} UnitsLessTrichotomy(a: seq<int>, b: seq<int>)
    ensures a == b || UnitsLess(a, b) || UnitsLess(b, a)
    ensures !(UnitsLess(a, b) && UnitsLess(b, a))
    decreases |a|
  {
    if |a| > 0 && |b| > 0 && a[0] == b[0] {
      UnitsLessTrichotomy(a[1..], b[1..]);
      if a[1..] == b[1..] {
        assert a == [a[0]] + a[1..] && b == [b[0]] + b[1..];
      }
    }
  }

  lemma {:induction false} UnitsLessTransitive(a: seq<int>, b: seq<int>, c: seq<int>)
    requires UnitsLess(a, b) && UnitsLess(b, c)
    ensures UnitsLess(a, c)
    decreases |a|
  {
    if |a| > 0 && a[0] == b[0] && b[0] == c[0] {
      UnitsLessTransitive(a[1..], b[1..], c[1..]);
    }
  }

  /**
   * JavaScript `<` on two strings: lexicographic by UTF-16 code unit, so a
   * character above U+FFFF (a surrogate pair) sorts before U+E000..U+FFFF.
   */
  predicate StrLess(a: string, b: string): (r: bool)
    ensures r ==> a != b && !UnitsLess(Utf16(b), Utf16(a))
    ensures |a| == 0 ==> (r <==> |b| > 0)
  {
    UnitsLessTrichotomy(Utf16(a), Utf16(b));
    UnitsLessIrreflexive(Utf16(a));
    UnitsLess(Utf16(a), Utf16(b))
  }

  lemma StrLessIrreflexive(a: string)
    ensures !StrLess(a, a)
  {
    UnitsLessIrreflexive(Utf16(a));
  }

  lemma StrLessTrichotomy(a: string, b: string)
    ensures a == b || StrLess(a, b) || StrLess(b, a)
    ensures !(StrLess(a, b) && StrLess(b, a))
  {
    UnitsLessTrichotomy(Utf16(a), Utf16(b));
    if Utf16(a) == Utf16(b) {
      Utf16Injective(a, b);
    }
  }

  lemma StrLessTransitive(a: string, b: string, c: string)
    requires StrLess(a, b) && StrLess(b, c)
    ensures StrLess(a, c)
  {
    UnitsLessTransitive(Utf16(a), Utf16(b), Utf16(c));
  }

  /**
   * Code-unit order differs from code-point order: U+1F600 is the pair
   * D83D DE00, and 0xD83D < 0xE000, so it sorts before U+E000.
   */
  lemma SurrogatePairSortsBeforePrivateUse()
    ensures StrLess("\U{1F600}", "\U{E000}")
    ensures '\U{1F600}' > '\U{E000}'
  {
    assert Utf16("\U{1F600}") == [0xD83D, 0xDE00];
    assert Utf16("\U{E000}") == [0xE000];
  }

  /**
   * JavaScript `a < b`, for the operand pairs the model covers: two numbers
   * or two strings. Every other pair is treated as unordered.
   */
  predicate Less(a: JsValue, b: JsValue): (r: bool)
    ensures r ==> Comparable(a, b) && a != b
    ensures a.Num? && b.Num? ==> (r <==> a.n < b.n)
    ensures a.Str? && b.Str? ==> (r <==> StrLess(a.s, b.s))
  {
    match (a, b)
    case (Num(x), Num(y)) => x < y
    case (Str(x), Str(y)) => StrLess(x, y)
    case _ => false
  }

  /** JavaScript `a >= b` under the same restriction. */
  predicate AtLeast(a: JsValue, b: JsValue) {
    match (a, b)
    case (Num(x), Num(y)) => x >= y
    case (Str(x), Str(y)) => !StrLess(x, y)
    case _ => false
  }

  /** The four results of a d3 comparator: -1, 1, 0 and NaN. */
  datatype Order = Before | After | Tie | Unordered {
    function Flip(): Order {
      match this
      case Before => After
      case After => Before
      case Tie => Tie
      case Unordered => Unordered
    }
  }

  predicate Comparable(a: JsValue, b: JsValue) {
    (a.Num? && b.Num?) || (a.Str? && b.Str?)
  }

  /** `d3.ascending(a, b)`: `a < b ? -1 : a > b ? 1 : a >= b ? 0 : NaN`. */
  function Ascending(a: JsValue, b: JsValue): (o: Order)
    ensures o == Before <==> Less(a, b)
    ensures o == After <==> Less(b, a)
    ensures o == Tie <==> Comparable(a, b) && a == b
    ensures o == Unordered <==> !Comparable(a, b)
  {
    LessTrichotomy(a, b);
    if Less(a, b) then Before
    else if Less(b, a) then After
    else if AtLeast(a, b) then Tie
    else Unordered
  }

  /** `d3.descending(a, b)`: `b < a ? -1 : b > a ? 1 : b >= a ? 0 : NaN`. */
  function Descending(a: JsValue, b: JsValue): (o: Order)
    ensures o == Ascending(a, b).Flip()
  {
    LessTrichotomy(a, b);
    if Less(b, a) then Before
    else if Less(a, b) then After
    else if AtLeast(b, a) then Tie
    else Unordered
  }

  /** On comparable operands exactly one of `a < b`, `a == b`, `b < a` holds. */
  lemma LessTrichotomy(a: JsValue, b: JsValue)
    ensures Comparable(a, b) ==> a == b || Less(a, b) || Less(b, a)
    ensures !(Less(a, b) && Less(b, a))
    ensures Comparable(a, b) && a == b ==> !Less(a, b)
  {
    if a.Str? && b.Str? {
      StrLessTrichotomy(a.s, b.s);
      StrLessIrreflexive(a.s);
    }
  }

  lemma AscendingAntisymmetric(a: JsValue, b: JsValue)
    ensures Ascending(b, a) == Ascending(a, b).Flip()
  {
    LessTrichotomy(a, b);
  }

  /** `d3.ascending` orders consistently: `-1` twice in a chain gives `-1` end to end. */
  lemma AscendingTransitive(a: JsValue, b: JsValue, c: JsValue)
    requires Ascending(a, b) == Before && Ascending(b, c) == Before
    ensures Ascending(a, c) == Before
  {
    if a.Str? {
      StrLessTransitive(a.s, b.s, c.s);
    }
  }

  /** The name "\U{1F600}" sorts before "\U{E000}" under `d3.ascending`, as in JavaScript. */
  lemma AscendingByCodeUnit()
    ensures Ascending(Str("\U{1F600}"), Str("\U{E000}")) == Before
  {
    SurrogatePairSortsBeforePrivateUse();
  }
}
