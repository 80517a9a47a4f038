/**
 * The player's input record (`Input` in common/input.js) and its `toString`
 * serialisation, which the client compares between frames to decide whether
 * to send the input again.
 *
 * The six flags are JavaScript numbers holding integers (the client writes 0
 * and 1); they are rendered in decimal. The aim components are arbitrary
 * numbers, rendered by the runtime's number-to-string conversion, which is
 * taken as a parameter `show`.
 */
module Inputs {
  datatype Input = Input(up: int, down: int, left: int, right: int, use: int,
                         aimX: real, aimY: real, attack: int)

  /** A new Input: every flag 0 and the aim vector (0, 0). */
  const Idle: Input := Input(0, 0, 0, 0, 0, 0.0, 0.0, 0)

  const Separator: char := ':'

  function Digit(d: int): char
    requires 0 <= d < 10
  {
    "0123456789"[d]
  }

  /** Decimal digits of a natural number, most significant first. */
  function NatToString(n: nat): (s: string)
    ensures |s| >= 1
    ensures forall k :: 0 <= k < |s| ==> '0' <= s[k] <= '9'
    ensures n < 10 <==> |s| == 1
  {
    if n < 10 then [Digit(n)] else NatToString(n / 10) + [Digit(n % 10)]
  }

  /** How an integer-valued number prints: an optional '-' and its decimal digits. */
  function IntToString(n: int): (s: string)
    ensures |s| >= 1 && Separator !in s
  {
    if n < 0 then "-" + NatToString(-n) else NatToString(n)
  }

  /** Distinct digit values print as distinct characters. */
  lemma DigitInjective(x: int, y: int)
    requires 0 <= x < 10 && 0 <= y < 10 && Digit(x) == Digit(y)
    ensures x == y
  {
  }

  lemma {:induction false} NatToStringInjective(a: nat, b: nat)
    requires NatToString(a) == NatToString(b)
    ensures a == b
  {
    var s := NatToString(a);
    if a >= 10 && b >= 10 {
      assert s == NatToString(a / 10) + [Digit(a % 10)] == NatToString(b / 10) + [Digit(b % 10)];
      assert s[|s| - 1] == Digit(a % 10) == Digit(b % 10);
      DigitInjective(a % 10, b % 10);
      assert s[..|s| - 1] == NatToString(a / 10) == NatToString(b / 10);
      NatToStringInjective(a / 10, b / 10);
    } else if a < 10 && b < 10 {
      DigitInjective(a, b);
    }
  }

  /** A rendered integer starts with '-' exactly when it is negative. */
  lemma SignShows(n: int)
    ensures IntToString(n)[0] == '-' <==> n < 0
  {
    if n >= 0 {
      assert '0' <= NatToString(n)[0] <= '9';
    }
  }

  lemma {:induction false} IntToStringInjective(a: int, b: int)
    requires IntToString(a) == IntToString(b)
    ensures a == b
  {
    var s := IntToString(a);
    SignShows(a);
    SignShows(b);
    if a < 0 {
      assert s[1..] == NatToString(-a) == NatToString(-b);
      NatToStringInjective(-a, -b);
    } else {
      NatToStringInjective(a, b);
    }
  }

  /** The eight rendered fields, in the order `toString` concatenates them. */
  function Fields(i: Input, show: real -> string): seq<string> {
    [IntToString(i.up), IntToString(i.down), IntToString(i.left), IntToString(i.right),
     IntToString(i.use), show(i.aimX), show(i.aimY), IntToString(i.attack)]
  }

  /** `a + ':' + b + ':' + ...`: the fields joined by the separator. */
  function Join(fields: seq<string>): string
    requires |fields| >= 1
  {
    if |fields| == 1 then fields[0] else fields[0] + [Separator] + Join(fields[1..])
  }

  /**
   * `toString`: the eight fields joined by the separator. When neither aim
   * component renders with a separator, the result splits back into the
   * fields in order up, down, left, right, use, aim x, aim y, attack.
   */
  function ToString(i: Input, show: real -> string): (s: string)
    ensures Separator !in show(i.aimX) && Separator !in show(i.aimY) ==> Split(s) == Fields(i, show)
  {
    var fields := Fields(i, show);
    if Separator !in show(i.aimX) && Separator !in show(i.aimY) then
      SplitJoin(fields);
      Join(fields)
    else
      Join(fields)
  }

  /** Splitting a string at every separator: the partner of Join. */
  function Split(s: string): (fields: seq<string>)
    ensures |fields| >= 1
    decreases |s|
  {
    if Separator !in s then [s]
    else
      var k := FirstSeparator(s);
      [s[..k]] + Split(s[k + 1..])
  }

  function FirstSeparator(s: string): (k: nat)
    requires Separator in s
    ensures k < |s| && s[k] == Separator && Separator !in s[..k]
  {
    if s[0] == Separator then 0 else 1 + FirstSeparator(s[1..])
  }

  function Count(s: string, c: char): nat {
    if s == [] then 0 else (if s[0] == c then 1 else 0) + Count(s[1..], c)
  }

  lemma {:induction false} CountAppend(a: string, b: string, c: char)
    ensures Count(a + b, c) == Count(a, c) + Count(b, c)
  {
    if a == [] {
      assert a + b == b;
    } else {
      assert (a + b)[0] == a[0];
      assert (a + b)[1..] == a[1..] + b;
      CountAppend(a[1..], b, c);
      assert Count(a + b, c) == (if a[0] == c then 1 else 0) + Count(a[1..] + b, c);
    }
  }

  lemma {:induction false} CountAbsent(a: string, c: char)
    requires c !in a
    ensures Count(a, c) == 0
  {
    if a != [] {
      CountAbsent(a[1..], c);
    }
  }

  predicate SeparatorFree(fields: seq<string>) {
    forall k :: 0 <= k < |fields| ==> Separator !in fields[k]
  }

  /** Joining n separator-free fields puts exactly n - 1 separators in the result. */
  lemma {:induction false} JoinSeparatorCount(fields: seq<string>)
    requires |fields| >= 1 && SeparatorFree(fields)
    ensures Count(Join(fields), Separator) == |fields| - 1
  {
    CountAbsent(fields[0], Separator);
    if |fields| > 1 {
      JoinSeparatorCount(fields[1..]);
      CountAppend(fields[0], [Separator], Separator);
      CountAppend(fields[0] + [Separator], Join(fields[1..]), Separator);
      assert Count([Separator], Separator) == 1 by {
        assert [Separator][1..] == [];
      }
    }
  }

  lemma {:induction false} SplitJoin(fields: seq<string>)
    requires |fields| >= 1 && SeparatorFree(fields)
    ensures Split(Join(fields)) == fields
  {
    var s := Join(fields);
    if |fields| == 1 {
      assert Separator !in s;
    } else {
      var a := fields[0];
      var rest := Join(fields[1..]);
      assert s == a + [Separator] + rest;
      assert s[|a|] == Separator;
      assert Separator in s;
      assert s[..|a|] == a;
      var k := FirstSeparator(s);
      assert k == |a|;
      assert s[k + 1..] == rest;
      SplitJoin(fields[1..]);
    }
  }

  /** Whatever the flags and the aim vector, `toString` holds exactly 7 separators. */
  lemma SerialisationHasSevenSeparators(i: Input, show: real -> string)
    requires forall r :: Separator !in show(r)
    ensures Count(ToString(i, show), Separator) == 7
  {
    JoinSeparatorCount(Fields(i, show));
  }

  /**
   * Inputs that differ in any field serialise differently, so the client's
   * change detection sees every change, provided the number rendering is
   * one-to-one and never prints a separator.
   */
  lemma SerialisationInjective(a: Input, b: Input, show: real -> string)
    requires forall r :: Separator !in show(r)
    requires forall r1, r2 :: show(r1) == show(r2) ==> r1 == r2
    requires ToString(a, show) == ToString(b, show)
    ensures a == b
  {
    var fa, fb := Fields(a, show), Fields(b, show);
    assert fa == fb;
    assert fa[0] == fb[0] && fa[1] == fb[1] && fa[2] == fb[2] && fa[3] == fb[3];
    assert fa[4] == fb[4] && fa[5] == fb[5] && fa[6] == fb[6] && fa[7] == fb[7];
    IntToStringInjective(a.up, b.up);
    IntToStringInjective(a.down, b.down);
    IntToStringInjective(a.left, b.left);
    IntToStringInjective(a.right, b.right);
    IntToStringInjective(a.use, b.use);
    IntToStringInjective(a.attack, b.attack);
  }

  /** A new Input serialises as eight zeros when zero prints as "0". */
  lemma IdleSerialisation(show: real -> string)
    requires show(0.0) == "0"
    ensures ToString(Idle, show) == "0:0:0:0:0:0:0:0"
  {
    assert IntToString(0) == "0";
    var f := Fields(Idle, show);
    assert f == ["0", "0", "0", "0", "0", "0", "0", "0"];
    assert Join(f[7..]) == "0";
    assert Join(f[6..]) == "0:0";
    assert Join(f[5..]) == "0:0:0";
    assert Join(f[4..]) == "0:0:0:0";
    assert Join(f[3..]) == "0:0:0:0:0";
    assert Join(f[2..]) == "0:0:0:0:0:0";
    assert Join(f[1..]) == "0:0:0:0:0:0:0";
  }
}
