// The dead-key generator keyboards/beamic/deadkeys.py: from a keyboard's
// description it computes, for every matrix row, the bitmap of columns the
// first layout (in sorted order of layout names) has no key at, and prints
// the bitmaps as lowercase `0x` hexadecimal separated by ", ".

module DeadKeys {

  datatype Option<T> = None | Some(value: T)

  /** One entry of the description's "layouts" object: its name, and the
      `matrix` position (row, column) of each of its keys. */
  datatype Layout = Layout(name: string, keys: seq<(int, int)>)

  /** The part of the description the generator reads: the column and row
      pin lists (only their lengths matter) and the layouts, one entry per
      key of the "layouts" object, so their names are distinct. */
  datatype Info = Info(colPins: seq<string>, rowPins: seq<string>, layouts: seq<Layout>)

  // ---------------------------------------------------------------------
  // Python's integers: `1 << c` and `|` on non-negative values

  /** `1 << n`. */
  function Pow2(n: nat): (p: nat)
    ensures p > 0
  {
    if n == 0 then 1 else 2 * Pow2(n - 1)
  }

  /** Bit `i` of `x` in binary. */
  predicate NatBit(x: nat, i: nat)
  {
    if i == 0 then x % 2 == 1 else NatBit(x / 2, i - 1)
  }

  /** `x | y` on non-negative integers of any size, one binary digit at a time. */
  function Or(x: nat, y: nat): nat
    decreases x + y
  {
    if x == 0 && y == 0 then 0
    else 2 * Or(x / 2, y / 2) + (if x % 2 == 1 || y % 2 == 1 then 1 else 0)
  }

  lemma {:induction false} ZeroBits(i: nat)
    ensures !NatBit(0, i)
  {
    if i > 0 {
      ZeroBits(i - 1);
    }
  }

  /** A bit of `x | y` is set exactly when it is set in `x` or in `y`. */
  lemma {:induction false} OrBits(x: nat, y: nat, i: nat)
    ensures NatBit(Or(x, y), i) <==> NatBit(x, i) || NatBit(y, i)
    decreases x + y
  {
    if x == 0 && y == 0 {
      ZeroBits(i);
    } else {
      var z := Or(x / 2, y / 2);
      var b := if x % 2 == 1 || y % 2 == 1 then 1 else 0;
      assert Or(x, y) == 2 * z + b;
      if i > 0 {
        assert (2 * z + b) / 2 == z;
        OrBits(x / 2, y / 2, i - 1);
      }
    }
  }

  /** `1 << c` has bit `c` and no other. */
  lemma {:induction false} Pow2Bits(c: nat, i: nat)
    ensures NatBit(Pow2(c), i) <==> i == c
  {
    if c == 0 {
      if i > 0 {
        ZeroBits(i - 1);
      }
    } else if i > 0 {
      Pow2Bits(c - 1, i - 1);
    }
  }

  /** OR-ing two values below `1 << n` stays below it. */
  lemma {:induction false} OrBound(x: nat, y: nat, n: nat)
    requires x < Pow2(n) && y < Pow2(n)
    ensures Or(x, y) < Pow2(n)
  {
    if n > 0 && !(x == 0 && y == 0) {
      OrBound(x / 2, y / 2, n - 1);
    }
  }

  /** A non-negative integer is determined by its bits. */
  lemma {:induction false} BitsDetermine(x: nat, y: nat)
    requires forall i: nat :: NatBit(x, i) == NatBit(y, i)
    ensures x == y
    decreases x + y
  {
    assert NatBit(x, 0) == NatBit(y, 0);
    if x != 0 || y != 0 {
      forall i: nat
        ensures NatBit(x / 2, i) == NatBit(y / 2, i)
      {
        assert NatBit(x, i + 1) == NatBit(y, i + 1);
      }
      BitsDetermine(x / 2, y / 2);
    }
  }

  // ---------------------------------------------------------------------
  // The dead bitmaps

  /** The positions of a layout's keys: the `keys` set. */
  function KeysOf(l: Layout): set<(int, int)>
  {
    set p | p in l.keys
  }

  /** `dead[row]` after the inner loop has visited columns 0..n-1. */
  function DeadRow(keys: set<(int, int)>, row: nat, n: nat): nat
  {
    if n == 0 then 0
    else if (row, n - 1) !in keys then Or(DeadRow(keys, row, n - 1), Pow2(n - 1))
    else DeadRow(keys, row, n - 1)
  }

  /** No bit is set at or beyond the column count. */
  lemma {:induction false} DeadRowBound(keys: set<(int, int)>, row: nat, n: nat)
    ensures DeadRow(keys, row, n) < Pow2(n)
  {
    if n > 0 {
      DeadRowBound(keys, row, n - 1);
      if (row, n - 1) !in keys {
        OrBound(DeadRow(keys, row, n - 1), Pow2(n - 1), n);
      }
    }
  }

  /** Bit `c` of the row's bitmap is set exactly when `c` is one of the
      first `n` columns and the layout has no key at (row, c). */
  lemma {:induction false} DeadRowBits(keys: set<(int, int)>, row: nat, n: nat, c: nat)
    ensures NatBit(DeadRow(keys, row, n), c) <==> c < n && (row, c) !in keys
  {
    if n == 0 {
      ZeroBits(c);
    } else {
      DeadRowBits(keys, row, n - 1, c);
      if (row, n - 1) !in keys {
        OrBits(DeadRow(keys, row, n - 1), Pow2(n - 1), c);
        Pow2Bits(n - 1, c);
      }
    }
  }

  /** The list `dead` holds once the loops are done. */
  function DeadRows(keys: set<(int, int)>, nrows: nat, ncols: nat): seq<nat>
  {
    seq(nrows, r requires 0 <= r < nrows => DeadRow(keys, r, ncols))
  }

  /** What the printed list means: one bitmap per row, with a bit for every
      column the layout leaves out and none beyond the last column. */
  ghost predicate DeadMap(d: seq<nat>, keys: set<(int, int)>, nrows: nat, ncols: nat)
  {
    && |d| == nrows
    && (forall r :: 0 <= r < nrows ==> d[r] < Pow2(ncols))
    && (forall r, c: nat :: 0 <= r < nrows ==> (NatBit(d[r], c) <==> c < ncols && (r, c) !in keys))
  }

  /** The dead bitmaps are exactly the rows' DeadRow values. */
  lemma DeadRowsAreDeadMap(keys: set<(int, int)>, nrows: nat, ncols: nat)
    ensures DeadMap(DeadRows(keys, nrows, ncols), keys, nrows, ncols)
  {
    var d := DeadRows(keys, nrows, ncols);
    forall r | 0 <= r < nrows
      ensures d[r] < Pow2(ncols)
      ensures forall c: nat :: NatBit(d[r], c) <==> c < ncols && (r, c) !in keys
    {
      DeadRowBound(keys, r, ncols);
      forall c: nat
        ensures NatBit(d[r], c) <==> c < ncols && (r, c) !in keys
      {
        DeadRowBits(keys, r, ncols, c);
      }
    }
  }

  /** The layout's key set determines the list: there is one list with this
      meaning. */
  lemma DeadMapUnique(d1: seq<nat>, d2: seq<nat>, keys: set<(int, int)>, nrows: nat, ncols: nat)
    requires DeadMap(d1, keys, nrows, ncols) && DeadMap(d2, keys, nrows, ncols)
    ensures d1 == d2
  {
    forall r | 0 <= r < nrows
      ensures d1[r] == d2[r]
    {
      forall i: nat
        ensures NatBit(d1[r], i) == NatBit(d2[r], i)
      {
        assert NatBit(d1[r], i) <==> i < ncols && (r, i) !in keys;
      }
      BitsDetermine(d1[r], d2[r]);
    }
  }

  /** The nested loops: start from `nrows` zeros and set bit `col` of
      `dead[row]` for every position the layout has no key at. */
  method ComputeDead(keys: set<(int, int)>, nrows: nat, ncols: nat) returns (dead: seq<nat>)
    ensures dead == DeadRows(keys, nrows, ncols)
  {
    dead := seq(nrows, _ => 0);
    var row := 0;
    while row < nrows
      invariant 0 <= row <= nrows && |dead| == nrows
      invariant forall r :: 0 <= r < row ==> dead[r] == DeadRow(keys, r, ncols)
      invariant forall r :: row <= r < nrows ==> dead[r] == 0
    {
      var col := 0;
      while col < ncols
        invariant 0 <= col <= ncols && |dead| == nrows
        invariant forall r :: 0 <= r < row ==> dead[r] == DeadRow(keys, r, ncols)
        invariant dead[row] == DeadRow(keys, row, col)
        invariant forall r :: row < r < nrows ==> dead[r] == 0
      {
        if (row, col) !in keys {
          dead := dead[row := Or(dead[row], Pow2(col))];
        }
        col := col + 1;
      }
      row := row + 1;
    }
  }

  // ---------------------------------------------------------------------
  // Choosing the layout

  /** Python's ordering of strings: code point by code point, a proper
      prefix first. */
  predicate LexLe(a: string, b: string)
  {
    if |a| == 0 then true
    else if |b| == 0 then false
    else if a[0] != b[0] then a[0] < b[0]
    else LexLe(a[1..], b[1..])
  }

  lemma {:induction false} LexTotal(a: string, b: string)
    ensures LexLe(a, b) || LexLe(b, a)
  {
    if |a| > 0 && |b| > 0 && a[0] == b[0] {
      LexTotal(a[1..], b[1..]);
    }
  }

  lemma {:induction false} LexTrans(a: string, b: string, c: string)
    requires LexLe(a, b) && LexLe(b, c)
    ensures LexLe(a, c)
  {
    if |a| > 0 && |b| > 0 && |c| > 0 && a[0] == b[0] && b[0] == c[0] {
      LexTrans(a[1..], b[1..], c[1..]);
    }
  }

  lemma {:induction false} LexAntisymmetric(a: string, b: string)
    requires LexLe(a, b) && LexLe(b, a)
    ensures a == b
  {
    if |a| > 0 && |b| > 0 {
      LexAntisymmetric(a[1..], b[1..]);
      assert a == [a[0]] + a[1..] && b == [b[0]] + b[1..];
    }
  }

  /** The layout `sorted(info["layouts"])[0]` names. */
  function FirstLayout(ls: seq<Layout>): (l: Layout)
    requires |ls| > 0
    ensures l in ls
  {
    if |ls| == 1 then ls[0]
    else
      var rest := FirstLayout(ls[1..]);
      if LexLe(ls[0].name, rest.name) then ls[0] else rest
  }

  /** Its name comes first in sorted order. */
  lemma {:induction false} FirstLayoutIsLeast(ls: seq<Layout>)
    requires |ls| > 0
    ensures forall l :: l in ls ==> LexLe(FirstLayout(ls).name, l.name)
  {
    if |ls| == 1 {
      LexTotal(ls[0].name, ls[0].name);
    } else {
      var rest := FirstLayout(ls[1..]);
      FirstLayoutIsLeast(ls[1..]);
      forall l | l in ls
        ensures LexLe(FirstLayout(ls).name, l.name)
      {
        if l == ls[0] {
          LexTotal(ls[0].name, rest.name);
          LexTotal(ls[0].name, ls[0].name);
        } else if LexLe(ls[0].name, rest.name) {
          assert l in ls[1..];
          LexTrans(ls[0].name, rest.name, l.name);
        } else {
          assert l in ls[1..];
        }
      }
    }
  }

  // ---------------------------------------------------------------------
  // The printed line

  function HexDigit(d: nat): char
    requires d < 16
  {
    "0123456789abcdef"[d]
  }

  predicate IsHexDigit(ch: char)
  {
    '0' <= ch <= '9' || 'a' <= ch <= 'f'
  }

  predicate AllHex(s: string)
  {
    forall i :: 0 <= i < |s| ==> IsHexDigit(s[i])
  }

  function DigitValue(ch: char): nat
    requires IsHexDigit(ch)
  {
    if ch <= '9' then ch as nat - '0' as nat else ch as nat - 'a' as nat + 10
  }

  lemma DigitRoundTrip(d: nat)
    requires d < 16
    ensures IsHexDigit(HexDigit(d)) && DigitValue(HexDigit(d)) == d
  {
  }

  /** `f"{x:x}"`: lowercase hexadecimal without leading zeros. */
  function Hex(x: nat): string
    decreases x
  {
    if x < 16 then [HexDigit(x)] else Hex(x / 16) + [HexDigit(x % 16)]
  }

  /** The value of a string of hexadecimal digits. */
  function ParseHex(s: string): nat
    requires AllHex(s)
  {
    if |s| == 0 then 0 else ParseHex(s[..|s| - 1]) * 16 + DigitValue(s[|s| - 1])
  }

  /** Hex writes lowercase digits only, begins with '0' only for zero, and
      reads back as the value it was given. */
  lemma {:induction false} HexRoundTrip(x: nat)
    ensures |Hex(x)| > 0 && AllHex(Hex(x))
    ensures Hex(x)[0] == '0' <==> x == 0
    ensures ParseHex(Hex(x)) == x
    decreases x
  {
    if x < 16 {
      DigitRoundTrip(x);
    } else {
      HexRoundTrip(x / 16);
      DigitRoundTrip(x % 16);
      var s := Hex(x);
      assert s[..|s| - 1] == Hex(x / 16);
    }
  }

  /** The number of hexadecimal digits `s` begins with. */
  function HexLen(s: string): (n: nat)
    ensures n <= |s| && AllHex(s[..n])
    ensures n < |s| ==> !IsHexDigit(s[n])
  {
    if |s| == 0 || !IsHexDigit(s[0]) then 0 else 1 + HexLen(s[1..])
  }

  /** Digits followed by a non-digit (or nothing) are read up to the end of the digits. */
  lemma {:induction false} HexLenStops(a: string, b: string)
    requires AllHex(a) && (|b| == 0 || !IsHexDigit(b[0]))
    ensures HexLen(a + b) == |a|
  {
    if |a| > 0 {
      assert (a + b)[1..] == a[1..] + b;
      HexLenStops(a[1..], b);
    }
  }

  /** `f"0x{x:x}"`. */
  function Entry(x: nat): string
  {
    "0x" + Hex(x)
  }

  /** `", ".join(f"0x{x:x}" for x in xs)`. */
  function Format(xs: seq<nat>): string
  {
    if |xs| == 0 then ""
    else if |xs| == 1 then Entry(xs[0])
    else Entry(xs[0]) + ", " + Format(xs[1..])
  }

  /** Reads one or more `0x` entries separated by ", ". */
  function ParseEntries(s: string): Option<seq<nat>>
    decreases |s|
  {
    if |s| < 2 || s[0] != '0' || s[1] != 'x' then None
    else
      var digits := s[2..];
      var n := HexLen(digits);
      if n == 0 then None
      else
        var v := ParseHex(digits[..n]);
        var rest := digits[n..];
        if |rest| == 0 then Some([v])
        else if |rest| >= 2 && rest[0] == ',' && rest[1] == ' ' then
          match ParseEntries(rest[2..])
          case None => None
          case Some(vs) => Some([v] + vs)
        else None
  }

  /** Reads a printed list back. */
  function Parse(s: string): Option<seq<nat>>
  {
    if |s| == 0 then Some([]) else ParseEntries(s)
  }

  /** The digits of `x` followed by `tail` (nothing, or a ", " separator)
      are read up to the separator, and what follows them is `tail`. */
  lemma ReadDigits(x: nat, tail: string)
    requires |tail| == 0 || tail[0] == ','
    ensures HexLen(Hex(x) + tail) == |Hex(x)| > 0
    ensures (Hex(x) + tail)[..|Hex(x)|] == Hex(x)
    ensures (Hex(x) + tail)[|Hex(x)|..] == tail
  {
    HexRoundTrip(x);
    HexLenStops(Hex(x), tail);
  }

  /** An entry is "0x" and then its digits. */
  lemma EntryDigits(x: nat, tail: string)
    ensures |Entry(x) + tail| >= 2
    ensures (Entry(x) + tail)[0] == '0' && (Entry(x) + tail)[1] == 'x'
    ensures (Entry(x) + tail)[2..] == Hex(x) + tail
  {
  }

  /** The last entry of a list reads back as its value. */
  lemma ParseLastEntry(x: nat)
    ensures ParseEntries(Entry(x)) == Some([x])
  {
    var s := Entry(x) + "";
    assert s == Entry(x);
    EntryDigits(x, "");
    ReadDigits(x, "");
    HexRoundTrip(x);
    assert Hex(x) + "" == Hex(x);
  }

  /** An entry followed by ", " and a list reads back as its value in front
      of that list. */
  lemma ParseNextEntry(x: nat, rest: string, vs: seq<nat>)
    requires ParseEntries(rest) == Some(vs)
    ensures ParseEntries(Entry(x) + ", " + rest) == Some([x] + vs)
  {
    var tail := ", " + rest;
    var s := Entry(x) + tail;
    assert Entry(x) + ", " + rest == s;
    EntryDigits(x, tail);
    ReadDigits(x, tail);
    HexRoundTrip(x);
    assert tail[2..] == rest;
  }

  /** The printed list reads back as the list of bitmaps, in row order. */
  lemma {:induction false} FormatRoundTrip(xs: seq<nat>)
    ensures Parse(Format(xs)) == Some(xs)
  {
    if |xs| == 1 {
      ParseLastEntry(xs[0]);
      assert xs == [xs[0]];
    } else if |xs| > 1 {
      var rest := Format(xs[1..]);
      FormatRoundTrip(xs[1..]);
      assert rest[..2] == "0x";
      ParseNextEntry(xs[0], rest, xs[1..]);
      assert xs == [xs[0]] + xs[1..];
    }
  }

  // ---------------------------------------------------------------------
  // The whole program

  /** deadkeys.py on a parsed description: None where `sorted(...)[0]`
      raises IndexError because there is no layout, and otherwise the
      printed line (without its newline). */
  method DeadKeysLine(info: Info) returns (out: Option<string>)
    ensures out.None? <==> |info.layouts| == 0
    ensures out.Some? ==>
      && Parse(out.value).Some?
      && DeadMap(Parse(out.value).value, KeysOf(FirstLayout(info.layouts)), |info.rowPins|, |info.colPins|)
    ensures out.Some? ==> out.value == Format(DeadRows(KeysOf(FirstLayout(info.layouts)), |info.rowPins|, |info.colPins|))
  {
    var ncols := |info.colPins|;
    var nrows := |info.rowPins|;
    if |info.layouts| == 0 {
      return None;
    }
    var layout := FirstLayout(info.layouts);
    var keys := KeysOf(layout);
    var dead := ComputeDead(keys, nrows, ncols);
    DeadRowsAreDeadMap(keys, nrows, ncols);
    FormatRoundTrip(dead);
    out := Some(Format(dead));
  }
}
