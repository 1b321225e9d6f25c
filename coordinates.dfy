/** A cell position in the game grid: a pair of `u16` components with the
    derived equality and order, addition of another position or of a signed
    neighbour offset, saturating subtraction and the `"(x, y)"` rendering. */
module Coords {
  import opened Numbers

  datatype Coordinates = Coordinates(x: u16, y: u16)

  /** A neighbour offset `(dx, dy)` as the source writes it: `(i8, i8)`. */
  type Offset = (i8, i8)

  /** `Coordinates + Coordinates`: componentwise; a `u16` overflow panics, so
      callers must stay in range. */
  function Add(a: Coordinates, b: Coordinates): (r: Coordinates)
    requires a.x + b.x < 0x1_0000 && a.y + b.y < 0x1_0000
    ensures r.x - b.x == a.x && r.y - b.y == a.y
  {
    Coordinates(a.x + b.x, a.y + b.y)
  }

  /** One component of `Coordinates + (i8, i8)`: widened to `i16`, added,
      and cast back to `u16` without clamping. */
  function AddComponent(v: u16, d: i8): u16 {
    I16AsU16(WrapI16(U16AsI16(v) + d))
  }

  function AddOffset(c: Coordinates, o: Offset): Coordinates {
    Coordinates(AddComponent(c.x, o.0), AddComponent(c.y, o.1))
  }

  /** `Coordinates - Coordinates`: componentwise `saturating_sub`. */
  function Sub(a: Coordinates, b: Coordinates): (r: Coordinates)
    ensures r.x <= a.x && r.y <= a.y
    ensures b.x <= a.x ==> r.x + b.x == a.x
    ensures b.y <= a.y ==> r.y + b.y == a.y
    ensures a.x < b.x ==> r.x == 0
    ensures a.y < b.y ==> r.y == 0
  {
    Coordinates(if a.x >= b.x then a.x - b.x else 0,
                if a.y >= b.y then a.y - b.y else 0)
  }

  /** The derived `Ord`: lexicographic on `x`, then `y`. */
  predicate Less(a: Coordinates, b: Coordinates) {
    a.x < b.x || (a.x == b.x && a.y < b.y)
  }

  /** The position packed into one 32-bit key, `x` in the high half. */
  function Key(c: Coordinates): nat {
    c.x * 0x1_0000 + c.y
  }

  /** `Display`: `"(x, y)"`. */
  function Display(c: Coordinates): string {
    "(" + DecimalString(c.x) + ", " + DecimalString(c.y) + ")"
  }

  // ---------------------------------------------------------------------
  // Offset arithmetic

  /** Adding an offset is addition modulo 2^16: a step below 0 wraps to the
      top of the `u16` range instead of being clamped to 0. */
  lemma AddComponentIsModular(v: u16, d: i8)
    ensures AddComponent(v, d) == (v + d) % 0x1_0000
  {
    var s := U16AsI16(v) + d;
    var w := WrapI16(s);
    assert (s + 0x8000) % 0x1_0000 == (v + d + 0x8000) % 0x1_0000 by {
      if v >= 0x8000 {
        assert s + 0x8000 == (v + d + 0x8000) - 0x1_0000;
      }
    }
    var q := (v + d + 0x8000) / 0x1_0000;
    assert v + d + 0x8000 == q * 0x1_0000 + (w + 0x8000);
    assert -1 <= q <= 1;
    if w >= 0 {
      assert v + d == q * 0x1_0000 + w;
    } else {
      assert v + d == (q - 1) * 0x1_0000 + (w + 0x1_0000);
    }
  }

  /** Without wrap-around the sum is the plain one; in particular
      `0 + (-1)` gives 65535. */
  lemma AddComponentCases(v: u16, d: i8)
    ensures 0 <= v + d < 0x1_0000 ==> AddComponent(v, d) == v + d
    ensures v + d < 0 ==> AddComponent(v, d) == v + d + 0x1_0000
    ensures v + d >= 0x1_0000 ==> AddComponent(v, d) == v + d - 0x1_0000
  {
    AddComponentIsModular(v, d);
  }

  /** Whatever the grid's `u16` width, a component of a cell inside the grid
      plus an offset in -1..1 lands inside iff the mathematical sum does; a
      wrapped value (65535 or 0 from overflow) is never a valid index. */
  lemma StepInRange(v: u16, d: i8, bound: u16)
    requires v < bound && -1 <= d <= 1
    ensures AddComponent(v, d) < bound <==> 0 <= v + d < bound
    ensures 0 <= v + d < bound ==> AddComponent(v, d) == v + d
  {
    AddComponentCases(v, d);
  }

  // ---------------------------------------------------------------------
  // Saturating subtraction

  /** Adding back what was subtracted restores the position when nothing
      saturated, and subtracting what was added always does. */
  lemma AddSubRoundTrip(a: Coordinates, b: Coordinates)
    ensures b.x <= a.x && b.y <= a.y ==> Add(Sub(a, b), b) == a
    ensures a.x + b.x < 0x1_0000 && a.y + b.y < 0x1_0000 ==> Sub(Add(a, b), b) == a
  {
  }

  // ---------------------------------------------------------------------
  // Order

  /** The lexicographic order is the numeric order of the packed key, hence
      a strict total order whose equality is componentwise. */
  lemma {:induction false} LessIsKeyOrder(a: Coordinates, b: Coordinates)
    ensures Less(a, b) <==> Key(a) < Key(b)
    ensures Key(a) == Key(b) <==> a == b
  {
    if a.x < b.x {
      assert (b.x - a.x) * 0x1_0000 >= 0x1_0000;
      assert Key(b) - Key(a) == (b.x - a.x) * 0x1_0000 + b.y - a.y;
    } else if a.x > b.x {
      assert (a.x - b.x) * 0x1_0000 >= 0x1_0000;
      assert Key(a) - Key(b) == (a.x - b.x) * 0x1_0000 + a.y - b.y;
    }
  }

  lemma LessIsStrictTotal(a: Coordinates, b: Coordinates, c: Coordinates)
    ensures !Less(a, a)
    ensures Less(a, b) && Less(b, c) ==> Less(a, c)
    ensures a == b || Less(a, b) || Less(b, a)
  {
  }

  // ---------------------------------------------------------------------
  // Display

  /** Number of leading decimal digits of `s`. */
  function LeadingDigits(s: string): (n: nat)
    ensures n <= |s|
  {
    if s != [] && IsDigit(s[0]) then 1 + LeadingDigits(s[1..]) else 0
  }

  lemma {:induction false} LeadingDigitsOfConcat(u: string, v: string)
    requires forall i | 0 <= i < |u| :: IsDigit(u[i])
    requires |v| > 0 && !IsDigit(v[0])
    ensures LeadingDigits(u + v) == |u|
  {
    if u != [] {
      assert (u + v)[1..] == u[1..] + v;
      LeadingDigitsOfConcat(u[1..], v);
    }
  }

  lemma CommaSplit(u: string, v: string, u': string, v': string)
    requires forall i | 0 <= i < |u| :: IsDigit(u[i])
    requires forall i | 0 <= i < |u'| :: IsDigit(u'[i])
    requires u + v == u' + v'
    requires |v| > 0 && |v'| > 0 && v[0] == ',' && v'[0] == ','
    ensures u == u' && v == v'
  {
    LeadingDigitsOfConcat(u, v);
    LeadingDigitsOfConcat(u', v');
    assert u == (u + v)[..|u|];
    assert u' == (u' + v')[..|u|];
    assert v == (u + v)[|u|..];
    assert v' == (u' + v')[|u|..];
  }

  /** Distinct positions render differently. */
  lemma {:induction false} DisplayInjective(a: Coordinates, b: Coordinates)
    requires Display(a) == Display(b)
    ensures a == b
  {
    var sa, sb := Display(a), Display(b);
    var ta := ", " + DecimalString(a.y) + ")";
    var tb := ", " + DecimalString(b.y) + ")";
    assert sa == "(" + (DecimalString(a.x) + ta);
    assert sb == "(" + (DecimalString(b.x) + tb);
    assert DecimalString(a.x) + ta == sa[1..];
    assert DecimalString(b.x) + tb == sb[1..];
    CommaSplit(DecimalString(a.x), ta, DecimalString(b.x), tb);
    DecimalStringInjective(a.x, b.x);
    var ya, yb := DecimalString(a.y), DecimalString(b.y);
    assert ya == ta[2..|ta| - 1];
    assert yb == tb[2..|tb| - 1];
    DecimalStringInjective(a.y, b.y);
  }
}
