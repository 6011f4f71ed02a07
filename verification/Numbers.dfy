/** Numbers on the screen and back: the printers of kernel/graphics/screen.c, and the two
    routines that read digits, hex_to_dec and read_mem_address of kernel/mem.c. */
module Numbers {
  import opened Words

  const DECIMALS := "0123456789"
  const HEX := "0123456789ABCDEF"

  // ---- digits and their value ----

  function Power(b: nat, e: nat): nat {
    if e == 0 then 1 else b * Power(b, e - 1)
  }

  /** The digits of `v`, the most significant first; zero has one digit. */
  function Digits(v: nat, b: nat): (ds: seq<nat>)
    requires b >= 2
    ensures |ds| >= 1 && forall i :: 0 <= i < |ds| ==> ds[i] < b
  {
    if v < b then [v] else
      DivParts(v, b);
      Digits(Quotient(v, b), b) + [Rest(v, b)]
  }

  function Quotient(v: nat, b: nat): nat
    requires b >= 2
  {
    v / b
  }

  function Rest(v: nat, b: nat): nat
    requires b >= 2
  {
    v % b
  }

  lemma {:induction false} Division(v: nat, b: nat)
    requires b >= 2
    ensures v == v / b * b + v % b && v % b < b && (v < b ==> v / b == 0) && (v >= b ==> 0 < v / b < v)
  {}

  lemma {:induction false} DivParts(v: nat, b: nat)
    requires b >= 2
    ensures v == Quotient(v, b) * b + Rest(v, b) && Rest(v, b) < b
    ensures v < b ==> Quotient(v, b) == 0 && Rest(v, b) == v
    ensures v >= b ==> 0 < Quotient(v, b) < v
  {
    Division(v, b);
  }

  /** The value of digits, the most significant first. */
  function Value(ds: seq<nat>, b: nat): nat {
    if ds == [] then 0 else Value(ds[..|ds| - 1], b) * b + ds[|ds| - 1]
  }

  lemma {:induction false} ValueStep(front: seq<nat>, d: nat, b: nat)
    ensures Value(front + [d], b) == Value(front, b) * b + d
  {
    assert (front + [d])[..|front|] == front;
  }

  lemma {:induction false} ValueOfDigits(v: nat, b: nat)
    requires b >= 2
    ensures Value(Digits(v, b), b) == v
  {
    hide Quotient, Rest;
    DivParts(v, b);
    if v < b {
      ValueStep([], v, b);
      assert Value([], b) == 0;
      assert [] + [v] == [v];
    } else {
      ValueOfDigits(Quotient(v, b), b);
      hide Value;
      ValueStep(Digits(Quotient(v, b), b), Rest(v, b), b);
    }
  }

  /** No other digits have that value, but for zeroes in front. */
  lemma {:induction false} DigitsOfValue(ds: seq<nat>, b: nat)
    requires b >= 2 && ds != [] && (forall i :: 0 <= i < |ds| ==> ds[i] < b) && (|ds| > 1 ==> ds[0] > 0)
    ensures Digits(Value(ds, b), b) == ds
    ensures ds[0] > 0 ==> Value(ds, b) > 0
  {
    var front, d := ds[..|ds| - 1], ds[|ds| - 1];
    if front == [] {
      assert Value(front, b) == 0;
      assert ds == [d];
    } else {
      DigitsOfValue(front, b);
      var v := Value(front, b);
      DivideBack(v, b, d);
      assert ds == front + [d];
    }
  }

  lemma DivideBack(v: nat, b: nat, d: nat)
    requires d < b && v > 0
    ensures (v * b + d) / b == v && (v * b + d) % b == d && v * b + d >= b
  {
    DivMod(v * b + d, b, v, d);
    assert v * b >= b;
  }

  lemma DivMod(x: nat, b: nat, q: nat, r: nat)
    requires r < b && x == q * b + r
    ensures x / b == q && x % b == r
  {
    NotBelow(q, r, x / b, x % b, b);
    NotBelow(x / b, x % b, q, r, b);
  }

  lemma {:induction false} NotBelow(q: nat, r: nat, q': nat, r': nat, b: nat)
    requires r < b && q * b + r == q' * b + r'
    ensures q >= q'
  {
    if q + 1 <= q' { Times(q + 1, q', b); }
    assert (q + 1) * b == q * b + b;
  }

  lemma {:induction false} Times(x: nat, y: nat, b: nat)
    requires x <= y
    ensures x * b <= y * b
  {}

  lemma {:induction false} DivBelow(v: nat, b: nat, p: nat)
    requires v < b * p
    ensures v / b < p
  {
    if p <= v / b { Times(p, v / b, b); }
  }

  lemma {:induction false} DigitsStep(v: nat, b: nat)
    requires b >= 2
    ensures var ds := Digits(v, b);
      && ds[|ds| - 1] == v % b
      && (v / b > 0 ==> ds[..|ds| - 1] == Digits(v / b, b))
      && (v / b == 0 ==> |ds| == 1)
  {
    DivParts(v, b);
  }

  lemma {:induction false} PowerStep(v: nat, b: nat, n: nat)
    requires b >= 2 && n >= 1 && v < Power(b, n)
    ensures v / b < Power(b, n - 1) && Power(b, 0) == 1
  {
    var p := Power(b, n - 1);
    assert v < b * p;
    hide Power;
    DivBelow(v, b, p);
  }

  lemma {:induction false} DigitCount(v: nat, b: nat, n: nat)
    requires b >= 2 && n >= 1 && v < Power(b, n)
    ensures |Digits(v, b)| <= n
  {
    hide Digits, Power;
    DigitsStep(v, b);
    PowerStep(v, b, n);
    if v / b > 0 { DigitCount(v / b, b, n - 1); }
  }

  // ---- arithmetic of 32-bit words ----

  lemma ModTimes(a: nat, b: nat)
    ensures a * (b % WORD_LIMIT) % WORD_LIMIT == a * b % WORD_LIMIT
  {
    var q, r := b / WORD_LIMIT, b % WORD_LIMIT;
    assert a * b == a * r + a * q * WORD_LIMIT by { assert b == q * WORD_LIMIT + r; }
    ModDrops(a * r, a * q);
  }

  lemma ModPlus(a: nat, b: nat)
    ensures (a % WORD_LIMIT + b % WORD_LIMIT) % WORD_LIMIT == (a + b) % WORD_LIMIT
  {}

  lemma ModDrops(x: nat, k: nat)
    ensures (x + k * WORD_LIMIT) % WORD_LIMIT == x % WORD_LIMIT
  {}

  method PowerOf(arg1: word, arg2: word) returns (result: word)
    ensures result == Power(arg1, arg2) % WORD_LIMIT
  {
    result := 1;
    for counter := 0 to arg2
      invariant result == Power(arg1, counter) % WORD_LIMIT
    {
      ModTimes(arg1, Power(arg1, counter));
      result := result * arg1 % WORD_LIMIT;
    }
  }

  // ---- decimals ----

  lemma TenDigits(value: word)
    ensures |Digits(value, 10)| <= 10
  {
    assert Power(10, 10) == 100_0000_0000 by { assert Power(10, 5) == 10_0000; }
    DigitCount(value, 10, 10);
  }

  /** The digits go into the buffer from the last one to the first, and out in reverse. */
  method Printi(value: word) returns (out: string)
    ensures |out| == |Digits(value, 10)| <= 10
    ensures forall i :: 0 <= i < |out| ==> out[i] == DECIMALS[Digits(value, 10)[i]]
  {
    hide Digits;
    ghost var ds := Digits(value, 10);
    TenDigits(value);
    var chr2 := new char[10];
    var v, integ := value, 0;
    while true
      invariant integ < |ds| && Digits(v, 10) == ds[..|ds| - integ]
      invariant forall i :: 0 <= i < integ ==> chr2[i] == DECIMALS[ds[|ds| - 1 - i]]
      decreases v
    {
      DigitsStep(v, 10);
      chr2[integ] := DECIMALS[v % 10];
      integ := integ + 1;
      v := v / 10;
      if !(v > 0) { break; }
    }
    out := "";
    while integ > 0
      invariant integ + |out| == |ds|
      invariant forall i :: 0 <= i < |out| ==> out[i] == DECIMALS[ds[i]]
    {
      out := out + [chr2[integ - 1]];
      integ := integ - 1;
    }
  }

  lemma PowerNone(b: nat)
    ensures Power(b, 0) == 1
  {}

  /** One more digit `v` after those of value `d`, with `k` places to come. */
  lemma {:induction false} ReadStep(d: nat, v: nat, k: nat, po: nat, sum: nat)
    requires po == Power(10, k) % WORD_LIMIT && sum == d * Power(10, k + 1) % WORD_LIMIT
    ensures (sum + v * po % WORD_LIMIT) % WORD_LIMIT == (d * 10 + v) * Power(10, k) % WORD_LIMIT
  {
    var p := Power(10, k);
    assert Power(10, k + 1) == 10 * p;
    hide Power;
    ModTimes(v, p);
    ModPlus(d * (10 * p), v * p);
    assert (d * 10 + v) * p == d * (10 * p) + v * p;
  }

  /** read_mem_address: the value of the digits, in 32 bits. */
  method ReadMemAddress(value: seq<word>, counter1: nat) returns (memvalue: word)
    requires counter1 < 0x100 && counter1 < |value|
    ensures memvalue == Value(value[..counter1 + 1], 10) % WORD_LIMIT
  {
    hide Power;
    PowerNone(10);
    var x: word, temp := counter1, 0;
    memvalue := 0;
    assert value[..0] == [];
    while temp <= counter1
      invariant 0 <= temp <= counter1 + 1 && (temp <= counter1 ==> x == counter1 - temp)
      invariant memvalue == Value(value[..temp], 10) * Power(10, counter1 + 1 - temp) % WORD_LIMIT
    {
      var v := value[temp];
      var po := PowerOf(10, x);
      var temp3 := v * po % WORD_LIMIT;
      assert value[..temp + 1] == value[..temp] + [v];
      ValueStep(value[..temp], v, 10);
      ReadStep(Value(value[..temp], 10), v, x, po, memvalue);
      memvalue := (memvalue + temp3) % WORD_LIMIT;
      x := if x == 0 then WORD_LIMIT - 1 else x - 1;
      temp := temp + 1;
    }
  }

  function CharValue(c: char): (d: nat)
    ensures d < 16
  {
    if '0' <= c <= '9' then (c as int) - ('0' as int) else if 'A' <= c <= 'F' then (c as int) - ('A' as int) + 10 else 0
  }

  lemma CharValueOf(d: nat)
    requires d < 16
    ensures CharValue(HEX[d]) == d && (d < 10 ==> DECIMALS[d] == HEX[d])
  {
    var c := HEX[d];
    assert d < 10 ==> c == DECIMALS[d];
    assert CharValue('0') == 0 && CharValue('1') == 1 && CharValue('2') == 2 && CharValue('3') == 3;
  }

  /** What printi puts on the screen, read_mem_address reads back. */
  method PrintedAndRead(n: word) returns (r: word)
    ensures r == n
  {
    var out := Printi(n);
    ghost var ds := Digits(n, 10);
    var value := seq(|out|, i requires 0 <= i < |out| => CharValue(out[i]));
    forall i | 0 <= i < |out| ensures value[i] == ds[i] { CharValueOf(ds[i]); }
    assert value == ds;
    assert value[..|out|] == value;
    ValueOfDigits(n, 10);
    r := ReadMemAddress(value, |out| - 1);
  }

  // ---- hexadecimals ----

  /** The value of digits, the least significant first. */
  function LowFirst(ds: seq<nat>, b: nat): nat {
    if ds == [] then 0 else ds[0] + b * LowFirst(ds[1..], b)
  }

  lemma {:induction false} PaddedValue(ds: seq<nat>, low: seq<nat>, b: nat)
    requires |ds| <= |low| && forall i :: 0 <= i < |low| ==> low[i] == if i < |ds| then ds[|ds| - 1 - i] else 0
    ensures LowFirst(low, b) == Value(ds, b)
    decreases |low|
  {
    if low != [] {
      var front := if ds == [] then [] else ds[..|ds| - 1];
      PaddedValue(front, low[1..], b);
      assert ds == [] ==> Value(front, b) == 0;
    }
  }

  /** The digits of a number, the last one first, and zeroes after them. */
  ghost predicate HasDigits(buffer: string, value: word) {
    var ds := Digits(value, 16);
    |buffer| == 8 && |ds| <= 8 && forall k :: 0 <= k < 8 ==> buffer[k] == if k < |ds| then HEX[ds[|ds| - 1 - k]] else '0'
  }

  /** The loop that fills the buffer (lines 450-456); zero leaves it as it was. */
  method StoreHex(value: word, finishedBuffer: array<char>) returns (i: nat)
    requires finishedBuffer.Length == 9 && forall k :: 0 <= k < 8 ==> finishedBuffer[k] == '0'
    modifies finishedBuffer
    ensures HasDigits(finishedBuffer[..8], value)
    ensures i == if value == 0 then 0 else |Digits(value, 16)|
  {
    hide Digits;
    ghost var ds := Digits(value, 16);
    EightDigits(value);
    var v;
    v, i := value, 0;
    if v == 0 { DigitsStep(0, 16); }
    while v >= 1
      invariant if v > 0 then i < |ds| && Digits(v, 16) == ds[..|ds| - i] else i == if value == 0 then 0 else |ds|
      invariant forall k :: 0 <= k < 8 ==> finishedBuffer[k] == if k < i then HEX[ds[|ds| - 1 - k]] else '0'
      decreases v
    {
      DigitsStep(v, 16);
      var hextemp2 := v;
      v := v / 16;
      finishedBuffer[i] := HEX[hextemp2 - v * 16];
      i := i + 1;
    }
  }

  /** print_hex: the buffer holds the number, and the screen has its digits in order, or
      eight zeroes. */
  method PrintHex(value: word) returns (out: string, finishedBuffer: array<char>)
    ensures fresh(finishedBuffer) && finishedBuffer.Length == 9
    ensures HasDigits(finishedBuffer[..8], value)
    ensures value == 0 ==> out == "0x00000000"
    ensures value > 0 ==> |out| == 2 + |Digits(value, 16)| && out[0] == '0' && out[1] == 'x'
    ensures value > 0 ==> forall i :: 2 <= i < |out| ==> out[i] == HEX[Digits(value, 16)[i - 2]]
  {
    hide Digits;
    ghost var ds := Digits(value, 16);
    finishedBuffer := new char[9](i => if i < 8 then '0' else '\0');
    out := "0x";
    if value == 0 { out := out + "00000000"; }
    var i := StoreHex(value, finishedBuffer);
    ghost var buffer := finishedBuffer[..8];
    while i > 0
      invariant value == 0 ==> i == 0 && out == "0x00000000"
      invariant value > 0 ==> 0 <= i <= |ds| && |out| == 2 + |ds| - i && out[0] == '0' && out[1] == 'x'
      invariant value > 0 ==> forall k :: 2 <= k < |out| ==> out[k] == HEX[ds[k - 2]]
    {
      assert finishedBuffer[i - 1] == buffer[i - 1];
      out := out + [finishedBuffer[i - 1]];
      i := i - 1;
    }
  }

  function CharValues(s: string): (r: seq<word>)
    ensures |r| == |s| && forall i :: 0 <= i < |s| ==> r[i] == CharValue(s[i])
  {
    seq(|s|, i requires 0 <= i < |s| => CharValue(s[i]))
  }

  lemma EightDigits(value: word)
    ensures |Digits(value, 16)| <= 8
  {
    assert Power(16, 8) == WORD_LIMIT by { assert Power(16, 4) == 0x1_0000; }
    DigitCount(value, 16, 8);
  }

  lemma BufferValue(buffer: string, value: word)
    requires HasDigits(buffer, value)
    ensures LowFirst(CharValues(buffer), 16) == value
  {
    hide CharValue, Value, Digits;
    var ds := Digits(value, 16);
    forall k | 0 <= k < 8 ensures CharValues(buffer)[k] == if k < |ds| then ds[|ds| - 1 - k] else 0 {
      CharValueOf(if k < |ds| then ds[|ds| - 1 - k] else 0);
    }
    PaddedValue(ds, CharValues(buffer), 16);
    ValueOfDigits(value, 16);
  }

  lemma LowNone(ds: seq<nat>, b: nat)
    requires ds == []
    ensures LowFirst(ds, b) == 0
  {}

  lemma {:induction false} LowStep(ds: seq<nat>, c: nat, b: nat)
    requires c < |ds|
    ensures LowFirst(ds[c..], b) * Power(b, c) == LowFirst(ds[c + 1..], b) * Power(b, c + 1) + ds[c] * Power(b, c)
  {
    assert ds[c..][1..] == ds[c + 1..];
    var l, p := LowFirst(ds[c + 1..], b), Power(b, c);
    assert (ds[c] + b * l) * p == ds[c] * p + l * (b * p);
  }

  /** hex_to_dec: the value of eight digits, the least significant first, in 32 bits. */
  method HexToDec(value: seq<word>) returns (result: word)
    requires |value| == 8
    ensures result == LowFirst(value, 16) % WORD_LIMIT
  {
    hide Power, LowFirst;
    PowerNone(16);
    LowNone(value[8..], 16);
    var c := 7;
    result := 0;
    while c >= 0
      invariant -1 <= c <= 7
      invariant result == LowFirst(value[c + 1..], 16) * Power(16, c + 1) % WORD_LIMIT
    {
      var po := PowerOf(16, c);
      LowStep(value, c, 16);
      ModTimes(value[c], Power(16, c));
      ModPlus(LowFirst(value[c + 1..], 16) * Power(16, c + 1), value[c] * Power(16, c));
      result := (result + value[c] * po % WORD_LIMIT) % WORD_LIMIT;
      c := c - 1;
    }
    assert value[0..] == value;
  }

  /** What print_hex stores, hex_to_dec reads back. */
  method StoredAndRead(n: word) returns (r: word)
    ensures r == n
  {
    hide CharValue, Digits, HasDigits, LowFirst;
    var out, buffer := PrintHex(n);
    BufferValue(buffer[..8], n);
    r := HexToDec(CharValues(buffer[..8]));
  }

  // ---- binaries ----

  lemma {:induction false} ShrHalf(w: nat, k: nat)
    ensures Shr(w, k + 1) == Shr(w, k) / 2
  {
    if k > 0 { ShrHalf(w / 2, k - 1); }
  }

  /** Below its highest digit a number shifts to something, above it to nothing. */
  lemma {:induction false} ShrSize(w: nat, k: nat, j: nat)
    ensures w >= Pow2(k) && j <= k ==> Shr(w, j) > 0
    ensures w < Pow2(k) && j >= k ==> Shr(w, j) == 0
  {
    if j > 0 {
      if k > 0 { ShrSize(w / 2, k - 1, j - 1); } else { ShrZero(j); }
    }
  }

  function BinaryDigit(w: word, k: nat): char {
    if Bit(w, k) then '1' else '0'
  }

  /** The binary digits of a number, each at its place, have its value. */
  function BitSum(w: nat, n: nat): nat {
    if n == 0 then 0 else BitSum(w, n - 1) + if Bit(w, n - 1) then Pow2(n - 1) else 0
  }

  lemma {:induction false} BitsSoFar(w: nat, n: nat)
    ensures BitSum(w, n) + Shr(w, n) * Pow2(n) == w
  {
    if n == 0 {
      ShrNone(w);
    } else {
      BitsSoFar(w, n - 1);
      BitIsOdd(w, n - 1);
      ShrHalf(w, n - 1);
      hide Shr, Bit;
      HalfAgain(Shr(w, n - 1), n);
    }
  }

  lemma HalfAgain(x: nat, n: nat)
    requires n > 0
    ensures x * Pow2(n - 1) == (x / 2) * Pow2(n) + (if x % 2 == 1 then Pow2(n - 1) else 0)
  {
    var p := Pow2(n - 1);
    assert Pow2(n) == 2 * p;
    hide Pow2;
    assert x == x / 2 * 2 + x % 2;
    assert x * p == (x / 2 * 2) * p + (x % 2) * p;
    assert (x / 2 * 2) * p == (x / 2) * (2 * p);
  }

  lemma BitsAddUp(w: word)
    ensures BitSum(w, 32) == w
  {
    hide BitSum, Shr, Bit, Pow2;
    BitsSoFar(w, 32);
    Pow32();
    ShrSize(w, 32, 32);
  }

  /** Binary digits, the first one highest, read as a number in base 2. */
  lemma {:induction false} CellsSoFar(w: word, cells: string, n: nat)
    requires |cells| == 32 && n <= 32 && forall a :: 0 <= a < 32 ==> cells[a] == BinaryDigit(w, 31 - a)
    ensures Value(CharValues(cells[..n]), 2) == Shr(w, 32 - n)
  {
    hide Bit, Shr;
    if n == 0 {
      Pow32();
      ShrSize(w, 32, 32);
    } else {
      CellsSoFar(w, cells, n - 1);
      assert CharValues(cells[..n])[..n - 1] == CharValues(cells[..n - 1]);
      BitIsOdd(w, 32 - n);
      ShrHalf(w, 32 - n);
    }
  }

  lemma CellsAddUp(w: word, cells: string)
    requires |cells| == 32 && forall a :: 0 <= a < 32 ==> cells[a] == BinaryDigit(w, 31 - a)
    ensures Value(CharValues(cells), 2) == w
  {
    hide Value, Bit, Shr;
    CellsSoFar(w, cells, 32);
    ShrNone(w);
    assert cells[..32] == cells;
  }

  /** The leading zeroes (lines 518-525). */
  method Padding(value: word, temparray: array<char>) returns (a: nat)
    requires temparray.Length == 34
    modifies temparray
    ensures a <= 32 && value < Pow2(32 - a) && (a < 32 ==> value >= Pow2(31 - a))
    ensures forall k :: 0 <= k < a ==> temparray[k] == '0'
  {
    Pow32();
    var max := 0x8000_0000;
    a := 0;
    while value < max
      invariant a <= 32 && max == (if a < 32 then Pow2(31 - a) else 0) && value < Pow2(32 - a)
      invariant forall k :: 0 <= k < a ==> temparray[k] == '0'
      decreases max
    {
      temparray[a] := '0';
      a := a + 1;
      max := max / 2;
    }
  }

  /** dec_to_bin: each of the 32 cells has its binary digit, and the screen shows them in fours. */
  method DecToBin(value: word) returns (out: string, temparray: array<char>)
    ensures fresh(temparray) && temparray.Length == 34
    ensures forall a :: 0 <= a < 32 ==> temparray[a] == BinaryDigit(value, 31 - a)
    ensures Value(CharValues(temparray[..32]), 2) == value
    ensures |out| == 40 && forall p :: 0 <= p < 40 ==> out[p] == if p % 5 == 4 then ' ' else temparray[p - p / 5]
  {
    temparray := new char[34];
    temparray[33] := '0';
    var pad := Padding(value, temparray);
    StoreBinary(value, temparray, pad);
    CellsAddUp(value, temparray[..32]);
    temparray[32] := '\0';
    var a := 0;
    out := "";
    while a < 32
      invariant 0 <= a <= 32 && |out| == a + a / 4
      invariant forall p :: 0 <= p < |out| ==> out[p] == if p % 5 == 4 then ' ' else temparray[p - p / 5]
    {
      out := out + [temparray[a]];
      a := a + 1;
      if a % 4 == 0 { out := out + " "; }
    }
  }

  /** The digits, the last one first (lines 530-541); the byte that counts down wraps after cell 0. */
  method StoreBinary(value: word, temparray: array<char>, ghost pad: nat)
    requires temparray.Length == 34 && pad <= 32 && value < Pow2(32 - pad) && (pad < 32 ==> value >= Pow2(31 - pad))
    requires forall k :: 0 <= k < pad ==> temparray[k] == '0'
    modifies temparray
    ensures forall a :: 0 <= a < 32 ==> temparray[a] == BinaryDigit(value, 31 - a)
  {
    hide Bit, Pow2, Shr;
    assert Shr(value, 0) == value by { ShrNone(value); }
    var v, a := value, 31;
    ghost var i := 0;
    while v > 0
      invariant i <= 32 - pad && v == Shr(value, i) && (i < 32 ==> a == 31 - i)
      invariant forall k :: 31 - i < k < 32 ==> temparray[k] == BinaryDigit(value, 31 - k)
      invariant forall k :: 0 <= k < pad ==> temparray[k] == '0'
      decreases v
    {
      ShrSize(value, 32 - pad, i);
      BitIsOdd(value, i);
      if v % 2 == 0 {
        temparray[a] := '0';
      } else {
        temparray[a] := '1';
        v := v - 1;
      }
      ShrHalf(value, i);
      v := v / 2;
      a := if a == 0 then 255 else a - 1;
      i := i + 1;
    }
    if pad < 32 { ShrSize(value, 31 - pad, i); }
    forall k | 0 <= k < pad ensures temparray[k] == BinaryDigit(value, 31 - k) {
      ShrSize(value, 32 - pad, 31 - k);
      BitIsOdd(value, 31 - k);
    }
  }

  lemma ShrNone(w: nat)
    ensures Shr(w, 0) == w
  {}
}
