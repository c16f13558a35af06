/** The Roman digit codec: the seven digits, their magnitudes, the greedy
    encoder of positive integers, the subtractive decoder of digit
    sequences, and the character and byte mappers with their renderings. */
module DigitCodec {
  import opened Septem

  /** An unsigned 32-bit integer, the input type of the encoder. */
  type U32 = x: nat | x < 0x1_0000_0000

  /** An unsigned byte. */
  type Byte = x: nat | x < 0x100

  type Pos = x: nat | x > 0 witness 1

  /** The seven base Roman digits. */
  datatype Digit = I | V | X | L | C | D | M

  // ---------------------------------------------------------------------
  // Magnitudes
  // ---------------------------------------------------------------------

  /** The magnitude of a digit. */
  function Value(d: Digit): (v: nat)
    ensures v in {1, 5, 10, 50, 100, 500, 1000}
  {
    match d
    case I => 1
    case V => 5
    case X => 10
    case L => 50
    case C => 100
    case D => 500
    case M => 1000
  }

  /** `Deref for Digit`: its own table of magnitudes, which agrees with `Value`. */
  function Deref(d: Digit): (r: nat)
    ensures r == Value(d)
  {
    match d
    case I => 1
    case V => 5
    case X => 10
    case L => 50
    case C => 100
    case D => 500
    case M => 1000
  }

  /** `From<Digit> for u32`, defined through `Deref`. */
  function U32From(d: Digit): (r: U32)
    ensures r == Value(d)
  {
    Deref(d)
  }

  /** Distinct digits have distinct magnitudes. */
  lemma ValueInjective(a: Digit, b: Digit)
    ensures Value(a) == Value(b) <==> a == b
  {
  }

  // ---------------------------------------------------------------------
  // Decoding
  // ---------------------------------------------------------------------

  /** The subtractive reading of a digit sequence: a digit followed by a
      strictly larger one counts as their difference and both are consumed;
      otherwise a digit counts as itself. Any sequence has a value. */
  function Decode(s: seq<Digit>): (r: nat)
    ensures r == 0 <==> s == []
  {
    if |s| == 0 then 0
    else if |s| >= 2 && Value(s[0]) < Value(s[1]) then
      (Value(s[1]) - Value(s[0])) + Decode(s[2..])
    else
      Value(s[0]) + Decode(s[1..])
  }

  /** `Digit::value_of`: a left-to-right scan with a cursor `i`. */
  method ValueOf(digits: seq<Digit>) returns (total: nat)
    ensures total == Decode(digits)
  {
    total := 0;
    var i := 0;
    while i < |digits|
      invariant 0 <= i <= |digits|
      invariant total + Decode(digits[i..]) == Decode(digits)
      decreases |digits| - i
    {
      var curr := Value(digits[i]);
      if i + 1 < |digits| {
        var next := Value(digits[i + 1]);
        if curr < next {
          // the subtraction happens only here, so it cannot underflow
          var diff: nat := next - curr;
          assert digits[i..][2..] == digits[i + 2..];
          total := total + diff;
          i := i + 2;
          continue;
        }
      }
      assert digits[i..][1..] == digits[i + 1..];
      total := total + curr;
      i := i + 1;
    }
  }

  // ---------------------------------------------------------------------
  // Encoding
  // ---------------------------------------------------------------------

  /** A row of the encoder's table: a value and the digits that spell it. */
  type Row = (Pos, seq<Digit>)

  /** The encoder's table: descending values, each with the digits that
      spell it, including the subtractive pairs 900, 400, 90, 40, 9 and 4. */
  const Table: seq<Row> := [
    (1000, [M]),
    (900, [C, M]),
    (500, [D]),
    (400, [C, D]),
    (100, [C]),
    (90, [X, C]),
    (50, [L]),
    (40, [X, L]),
    (10, [X]),
    (9, [I, X]),
    (5, [V]),
    (4, [I, V]),
    (1, [I])
  ]

  /** `count` copies of `row`, one after another. */
  function Repeat(row: seq<Digit>, count: nat): seq<Digit>
  {
    if count == 0 then [] else row + Repeat(row, count - 1)
  }

  /** The greedy walk over `rows` with `n` still to spell: each row is
      repeated as often as its value fits, and the walk goes on with the
      remainder. */
  function EncodeRows(n: nat, rows: seq<Row>): seq<Digit>
    decreases |rows|
  {
    if rows == [] then []
    else Repeat(rows[0].1, n / rows[0].0) + EncodeRows(n % rows[0].0, rows[1..])
  }

  /** What the walk over `rows` leaves unspelled: less than the last row's
      value. */
  function Remainder(n: nat, rows: seq<Row>): (r: nat)
    ensures rows != [] ==> r < rows[|rows| - 1].0
    decreases |rows|
  {
    if rows == [] then n else Remainder(n % rows[0].0, rows[1..])
  }

  /** The digits the encoder emits for `n`. */
  function Encode(n: nat): seq<Digit>
  {
    EncodeRows(n, Table)
  }

  /** The inner step of `from_int`: `count` copies of a table row pushed
      onto `result`, one row at a time. */
  method AppendRow(result: seq<Digit>, row: seq<Digit>, count: nat) returns (r: seq<Digit>)
    ensures r == result + Repeat(row, count)
  {
    r := result;
    assert r == result + Repeat(row, 0);
    var j := 0;
    while j < count
      invariant 0 <= j <= count
      invariant r == result + Repeat(row, j)
    {
      RepeatSnoc(row, j);
      r := r + row;
      j := j + 1;
    }
  }

  /** The loop of `from_int` over the table rows: each row is appended as
      often as its value fits, and the walk stops early once nothing is left. */
  method EncodeWalk(num: nat, table: seq<Row>) returns (result: seq<Digit>)
    ensures result == EncodeRows(num, table)
  {
    var n: nat := num;
    result := [];
    var rows := table;
    ghost var consumed: int := 0;
    while rows != []
      invariant |rows| <= |table| && rows == table[|table| - |rows|..]
      invariant result + EncodeRows(n, rows) == EncodeRows(num, table)
      invariant consumed + n == num
      invariant |rows| < |table| ==> n < table[|table| - |rows| - 1].0
      decreases |rows|
    {
      if n == 0 {
        break;
      }
      var (value, digits) := rows[0];
      Euclid(n, value);
      var count := n / value;
      result := AppendRow(result, digits, count);
      consumed := consumed + count * value;
      n := n % value;
      assert rows[1..] == table[|table| - |rows| + 1..];
      rows := rows[1..];
    }
    EncodeRowsZero(rows);
    assert result == result + EncodeRows(n, rows);
  }

  /** `Digit::from_int`: zero is rejected; every other 32-bit number is
      spelled by walking the table, stopping as soon as nothing is left. */
  method FromInt(num: U32) returns (r: Result<seq<Digit>>)
    ensures num == 0 ==> r == Err(InvalidNumber(0))
    ensures num != 0 ==> r == Ok(Encode(num))
    ensures r.Ok? ==> Decode(r.value) == num
  {
    var n: nat := num;
    if n == 0 {
      return Err(InvalidNumber(n));
    }
    var result := EncodeWalk(n, Table);
    DecodeEncode(num);
    return Ok(result);
  }

  // ---------------------------------------------------------------------
  // Characters and bytes
  // ---------------------------------------------------------------------

  /** The fourteen ASCII letters the mappers accept. */
  predicate IsAsciiDigit(c: char)
  {
    c == 'I' || c == 'V' || c == 'X' || c == 'L' || c == 'C' || c == 'D' || c == 'M' ||
    c == 'i' || c == 'v' || c == 'x' || c == 'l' || c == 'c' || c == 'd' || c == 'm'
  }

  /** The characters `FromChar` accepts: the ASCII letters and the whole
      Unicode Number Forms block of Roman numerals, U+2160 to U+217F. */
  predicate IsNumeralChar(c: char)
  {
    IsAsciiDigit(c) || ('\U{2160}' <= c <= '\U{217F}')
  }

  /** ASCII upper-casing of a character. */
  function AsciiUpper(c: char): char
  {
    if 'a' <= c <= 'z' then (c as int - 32) as char else c
  }

  /** ASCII lower-casing of a character. */
  function AsciiLower(c: char): char
  {
    if 'A' <= c <= 'Z' then (c as int + 32) as char else c
  }

  /** The character a byte stands for (`u8 as char`, Latin-1). */
  function ByteChar(b: Byte): char
  {
    b as char
  }

  /** `Digit::from_char`: an ASCII letter of either case, or a Unicode Roman
      numeral glyph, which may expand to several digits. The match is written
      on code points; each line lists the characters it stands for. */
  function FromChar(c: char): (r: Result<seq<Digit>>)
    ensures r.Ok? <==> IsNumeralChar(c)
    ensures r.Err? ==> r.error == InvalidDigit(c)
    ensures r.Ok? ==> 1 <= |r.value| <= 4
  {
    match c as int
    case 0x2160 | 0x2170 | 0x49 | 0x69 => Ok([I])  // 'Ⅰ' | 'ⅰ' | 'I' | 'i'
    case 0x2161 | 0x2171 => Ok([I, I])             // 'Ⅱ' | 'ⅱ'
    case 0x2162 | 0x2172 => Ok([I, I, I])          // 'Ⅲ' | 'ⅲ'
    case 0x2163 | 0x2173 => Ok([I, V])             // 'Ⅳ' | 'ⅳ'
    case 0x2164 | 0x2174 | 0x56 | 0x76 => Ok([V])  // 'Ⅴ' | 'ⅴ' | 'V' | 'v'
    case 0x2165 | 0x2175 => Ok([V, I])             // 'Ⅵ' | 'ⅵ'
    case 0x2166 | 0x2176 => Ok([V, I, I])          // 'Ⅶ' | 'ⅶ'
    case 0x2167 | 0x2177 => Ok([V, I, I, I])       // 'Ⅷ' | 'ⅷ'
    case 0x2168 | 0x2178 => Ok([I, X])             // 'Ⅸ' | 'ⅸ'
    case 0x2169 | 0x2179 | 0x58 | 0x78 => Ok([X])  // 'Ⅹ' | 'ⅹ' | 'X' | 'x'
    case 0x216A | 0x217A => Ok([X, I])             // 'Ⅺ' | 'ⅺ'
    case 0x216B | 0x217B => Ok([X, I, I])          // 'Ⅻ' | 'ⅻ'
    case 0x216C | 0x217C | 0x4C | 0x6C => Ok([L])  // 'Ⅼ' | 'ⅼ' | 'L' | 'l'
    case 0x216D | 0x217D | 0x43 | 0x63 => Ok([C])  // 'Ⅽ' | 'ⅽ' | 'C' | 'c'
    case 0x216E | 0x217E | 0x44 | 0x64 => Ok([D])  // 'Ⅾ' | 'ⅾ' | 'D' | 'd'
    case 0x216F | 0x217F | 0x4D | 0x6D => Ok([M])  // 'Ⅿ' | 'ⅿ' | 'M' | 'm'
    case _ => Err(InvalidDigit(c))
  }

  /** `Digit::from_byte`: exactly one digit for an ASCII letter of either
      case; the digit is the one whose upper-case rendering is that letter. */
  function FromByte(b: Byte): (r: Result<Digit>)
    ensures r.Ok? <==> IsAsciiDigit(ByteChar(b))
    ensures r.Err? ==> r.error == InvalidDigit(ByteChar(b))
    ensures r.Ok? ==> ToUppercase(r.value) == AsciiUpper(ByteChar(b))
  {
    match b
    case 73 | 105 => Ok(I)    // 'I' | 'i'
    case 86 | 118 => Ok(V)    // 'V' | 'v'
    case 88 | 120 => Ok(X)    // 'X' | 'x'
    case 76 | 108 => Ok(L)    // 'L' | 'l'
    case 67 | 99 => Ok(C)     // 'C' | 'c'
    case 68 | 100 => Ok(D)    // 'D' | 'd'
    case 77 | 109 => Ok(M)    // 'M' | 'm'
    case _ => Err(InvalidDigit(ByteChar(b)))
  }

  /** `Digit::to_lowercase`. */
  function ToLowercase(d: Digit): (r: char)
    ensures 'a' <= r <= 'z'
  {
    match d
    case I => 'i'
    case V => 'v'
    case X => 'x'
    case L => 'l'
    case C => 'c'
    case D => 'd'
    case M => 'm'
  }

  /** `Digit::to_uppercase`. */
  function ToUppercase(d: Digit): (r: char)
    ensures 'A' <= r <= 'Z'
  {
    match d
    case I => 'I'
    case V => 'V'
    case X => 'X'
    case L => 'L'
    case C => 'C'
    case D => 'D'
    case M => 'M'
  }

  /** `From<&Digit> for char`: the upper-case rendering, which reads back
      as the same digit. */
  function CharFrom(d: Digit): (c: char)
    ensures FromChar(c) == Ok([d])
  {
    ToUppercase(d)
  }

  /** `Display for Digit`: the one-character string of `CharFrom`. */
  function Display(d: Digit): (s: string)
    ensures |s| == 1 && FromChar(s[0]) == Ok([d])
  {
    [CharFrom(d)]
  }

  // ---------------------------------------------------------------------
  // Lemmas: arithmetic
  // ---------------------------------------------------------------------

  lemma Euclid(n: nat, v: Pos)
    ensures 0 <= n / v && n == (n / v) * v + n % v && n % v < v
  {
  }

  lemma MulNonneg(a: nat, b: nat)
    ensures a * b >= 0
  {
  }

  lemma MulAtLeast(v: nat, q: nat)
    requires q >= 1
    ensures v * q >= v
  {
  }

  lemma DivModUnique(m: int, d: int, q: int, r: int)
    requires d > 0 && 0 <= r < d && m == q * d + r
    ensures m / d == q && m % d == r
  {
    var q', r' := m / d, m % d;
    assert m == q' * d + r';
    if q' < q {
      assert (q - q') * d == r' - r;
      MulAtLeast(d, q - q');
    } else if q < q' {
      assert (q' - q) * d == r - r';
      MulAtLeast(d, q' - q);
    }
  }

  lemma MulDistributes(a: int, b: int, v: int)
    ensures (a + b) * v == a * v + b * v
  {
  }

  lemma MulAssociates(a: int, c: int, v: int)
    ensures (a * c) * v == a * (c * v)
  {
  }

  lemma MulMonotone(b: nat, c: nat, v: nat)
    requires b < c
    ensures b * v + v <= c * v
  {
    MulDistributes(b, 1, v);
    assert (b + 1) * v <= c * v;
  }

  /** Dividing `q * v + r` (with `r < v`) by `c * v` works on `q` alone. */
  lemma ScaledDivMod(q: nat, r: nat, v: nat, c: nat)
    requires 0 <= r < v && c > 0
    ensures (q * v + r) / (c * v) == q / c
    ensures (q * v + r) % (c * v) == (q % c) * v + r
  {
    var a, b := q / c, q % c;
    var cv := c * v;
    assert q == a * c + b;
    MulDistributes(a * c, b, v);
    MulAssociates(a, c, v);
    assert q * v == a * cv + b * v;
    MulMonotone(b, c, v);
    DivModUnique(q * v + r, cv, a, b * v + r);
  }

  // ---------------------------------------------------------------------
  // Lemmas: round trip
  // ---------------------------------------------------------------------

  /** The decoder on the sample numerals. */
  lemma DecodeExamples()
    ensures Decode([]) == 0
    ensures Decode([X, I, I]) == 12
    ensures Decode([X, I, V]) == 14
    ensures Decode([I, X]) == 9
  {
  }

  /** A well-formed row: a single digit worth `v`, or a subtractive pair
      worth `v` whose first digit is worth at most `v`. */
  predicate IsRow(v: nat, row: seq<Digit>)
  {
    (|row| == 1 && Value(row[0]) == v) ||
    (|row| == 2 && Value(row[0]) < Value(row[1]) &&
     Value(row[1]) - Value(row[0]) == v && Value(row[0]) <= v)
  }

  predicate WellFormed(rows: seq<Row>)
  {
    forall j :: 0 <= j < |rows| ==> IsRow(rows[j].0, rows[j].1)
  }

  /** Every row of the encoder's table is well formed, and the last one is
      worth 1. */
  lemma TableWellFormed()
    ensures WellFormed(Table) && Table[|Table| - 1].0 == 1
  {
  }

  /** Reading one row in front of `rest` adds the row's value, provided a
      single digit is not followed by a larger one. */
  lemma DecodeRow(v: nat, row: seq<Digit>, rest: seq<Digit>)
    requires IsRow(v, row)
    requires |row| == 1 && rest != [] ==> Value(rest[0]) <= v
    ensures Decode(row + rest) == v + Decode(rest)
  {
    var s := row + rest;
    if |row| == 1 {
      assert s[1..] == rest;
    } else {
      assert s[2..] == rest;
    }
  }

  lemma {:induction false} DecodeRepeat(v: nat, row: seq<Digit>, count: nat, rest: seq<Digit>)
    requires IsRow(v, row)
    requires |row| == 1 && rest != [] ==> Value(rest[0]) <= v
    ensures Decode(Repeat(row, count) + rest) == count * v + Decode(rest)
  {
    if count > 0 {
      var tail := Repeat(row, count - 1) + rest;
      assert Repeat(row, count) + rest == row + tail;
      if count - 1 > 0 {
        assert tail[0] == row[0];
      } else {
        assert tail == rest;
      }
      DecodeRow(v, row, tail);
      DecodeRepeat(v, row, count - 1, rest);
      assert count * v == v + (count - 1) * v;
    } else {
      assert Repeat(row, count) + rest == rest;
    }
  }

  /** One row of the walk: `q` copies of a row worth `v`, then a remainder
      that starts with a digit worth at most `m < v`. */
  lemma DecodeRowStep(q: nat, m: nat, v: Pos, row: seq<Digit>, rest: seq<Digit>)
    requires IsRow(v, row) && m < v
    requires rest != [] ==> Value(rest[0]) <= m
    ensures Decode(Repeat(row, q) + rest) == q * v + Decode(rest)
  {
    DecodeRepeat(v, row, q, rest);
  }

  /** The walk over well-formed rows spells what it consumes, and what it
      emits starts with a digit worth at most the number it was given. */
  lemma {:induction false} DecodeEncodeRows(n: nat, rows: seq<Row>)
    requires WellFormed(rows)
    ensures Decode(EncodeRows(n, rows)) + Remainder(n, rows) == n
    ensures EncodeRows(n, rows) != [] ==> Value(EncodeRows(n, rows)[0]) <= n
    decreases |rows|
  {
    if rows != [] {
      var (v, row) := rows[0];
      assert IsRow(v, row);
      assert WellFormed(rows[1..]) by {
        forall j | 0 <= j < |rows| - 1 ensures IsRow(rows[1..][j].0, rows[1..][j].1) {
          assert rows[1..][j] == rows[j + 1];
        }
      }
      Euclid(n, v);
      var q, m := n / v, n % v;
      var rest := EncodeRows(m, rows[1..]);
      DecodeEncodeRows(m, rows[1..]);
      DecodeRowStep(q, m, v, row, rest);
      assert EncodeRows(n, rows) == Repeat(row, q) + rest;
      if q > 0 {
        MulAtLeast(v, q);
        assert EncodeRows(n, rows)[0] == row[0];
      } else {
        assert Repeat(row, q) + rest == rest;
      }
    }
  }

  /** Round trip: decoding what the encoder emits gives the number back, for
      every number, beyond 3999 too. */
  lemma DecodeEncode(n: nat)
    ensures Decode(Encode(n)) == n
  {
    TableWellFormed();
    DecodeEncodeRows(n, Table);
  }

  // ---------------------------------------------------------------------
  // Lemmas: the encoder's output
  // ---------------------------------------------------------------------

  lemma {:induction false} RepeatSnoc(row: seq<Digit>, count: nat)
    ensures Repeat(row, count + 1) == Repeat(row, count) + row
  {
    if count > 0 {
      RepeatSnoc(row, count - 1);
    } else {
      assert Repeat(row, 1) == row + [];
    }
  }

  /** Once nothing is left, the rest of the walk emits nothing; this is why
      the early `break` does not change the result. */
  lemma {:induction false} EncodeRowsZero(rows: seq<Row>)
    ensures EncodeRows(0, rows) == []
    decreases |rows|
  {
    if rows != [] {
      EncodeRowsZero(rows[1..]);
    }
  }

  /** Walking `a + b` is walking `a`, then walking `b` with what `a` left. */
  lemma {:induction false} EncodeRowsAppend(n: nat, a: seq<Row>, b: seq<Row>)
    ensures EncodeRows(n, a + b) == EncodeRows(n, a) + EncodeRows(Remainder(n, a), b)
    ensures Remainder(n, a + b) == Remainder(Remainder(n, a), b)
    decreases |a|
  {
    if a == [] {
      assert a + b == b;
    } else {
      assert (a + b)[0] == a[0] && (a + b)[1..] == a[1..] + b;
      EncodeRowsAppend(n % a[0].0, a[1..], b);
    }
  }

  /** The textbook spelling of one decimal digit `q` with the digits worth
      one, five and ten units of its position. */
  function DecimalDigit(q: nat, one: Digit, five: Digit, ten: Digit): seq<Digit>
    requires q < 10
  {
    [[], [one], [one, one], [one, one, one], [one, five],
     [five], [five, one], [five, one, one], [five, one, one, one], [one, ten]][q]
  }

  /** The canonical Roman numeral: a run of M for the thousands, then the
      hundreds, tens and units digits each spelled on its own. */
  function Canonical(n: nat): seq<Digit>
  {
    Repeat([M], n / 1000)
    + DecimalDigit(n / 100 % 10, C, D, M)
    + DecimalDigit(n / 10 % 10, X, L, C)
    + DecimalDigit(n % 10, I, V, X)
  }

  /** The four rows of one decimal position worth `v`. */
  function Decade(v: Pos, one: Digit, five: Digit, ten: Digit): seq<Row>
  {
    [(9 * v, [one, ten]), (5 * v, [five]), (4 * v, [one, five]), (v, [one])]
  }

  /** The table is the thousands row followed by the rows of the hundreds,
      the tens and the units. */
  lemma TableByDecades()
    ensures Table == [(1000, [M])] + Decade(100, C, D, M) + Decade(10, X, L, C) + Decade(1, I, V, X)
  {
  }

  lemma RepeatSmall(row: seq<Digit>)
    ensures Repeat(row, 0) == [] && Repeat(row, 1) == row
    ensures Repeat(row, 2) == row + row && Repeat(row, 3) == row + row + row
  {
    assert Repeat(row, 1) == row + [];
    assert Repeat(row, 2) == row + Repeat(row, 1);
    assert Repeat(row, 3) == row + Repeat(row, 2);
  }

  /** The greedy choice of `q` over nine, five, four and one. */
  lemma DecimalDigitGreedy(q: nat, one: Digit, five: Digit, ten: Digit)
    requires q < 10
    ensures DecimalDigit(q, one, five, ten)
      == Repeat([one, ten], q / 9) + Repeat([five], q % 9 / 5)
         + Repeat([one, five], q % 9 % 5 / 4) + Repeat([one], q % 9 % 5 % 4 / 1)
  {
    RepeatSmall([one, ten]);
    RepeatSmall([five]);
    RepeatSmall([one, five]);
    RepeatSmall([one]);
  }

  /** Below `c * v`, the number is its digit in position `v` followed by
      what is below `v`. */
  lemma PositionSplit(n: nat, v: Pos, c: Pos)
    ensures n % (c * v) == (n / v % c) * v + n % v
  {
    Euclid(n, v);
    ScaledDivMod(n / v, n % v, v, c);
  }

  /** One row worth `c * v` applied to `x = q * v + r`, where `r < v`:
      the row is taken `q / c` times and `y = (q % c) * v + r` is left. */
  lemma ScaledRowStep(x: nat, y: nat, q: nat, r: nat, v: Pos, c: Pos, rows: seq<Row>)
    requires rows != [] && r < v && rows[0].0 == c * v
    requires x == q * v + r && y == (q % c) * v + r
    ensures EncodeRows(x, rows) == Repeat(rows[0].1, q / c) + EncodeRows(y, rows[1..])
    ensures Remainder(x, rows) == Remainder(y, rows[1..])
  {
    ScaledDivMod(q, r, v, c);
  }

  /** The walk over the four rows of one decimal position worth `v`: the
      nines row, the five row, the four row and the unit row in turn. */
  lemma DecadeSteps(x: nat, q: nat, r: nat, v: Pos, one: Digit, five: Digit, ten: Digit)
    requires q < 10 && r < v && x == q * v + r
    ensures EncodeRows(x, Decade(v, one, five, ten))
      == Repeat([one, ten], q / 9) + (Repeat([five], q % 9 / 5)
         + (Repeat([one, five], q % 9 % 5 / 4) + Repeat([one], q % 9 % 5 % 4 / 1)))
    ensures Remainder(x, Decade(v, one, five, ten)) == r
  {
    var d := Decade(v, one, five, ten);
    var q1, q2, q3 := q % 9, q % 9 % 5, q % 9 % 5 % 4;
    MulNonneg(q1, v);
    MulNonneg(q2, v);
    MulNonneg(q3, v);
    var x1: nat, x2: nat, x3: nat := q1 * v + r, q2 * v + r, q3 * v + r;
    assert EncodeRows(x, d) == Repeat([one, ten], q / 9) + EncodeRows(x1, d[1..])
        && Remainder(x, d) == Remainder(x1, d[1..]) by {
      ScaledRowStep(x, x1, q, r, v, 9, d);
    }
    assert EncodeRows(x1, d[1..]) == Repeat([five], q1 / 5) + EncodeRows(x2, d[2..])
        && Remainder(x1, d[1..]) == Remainder(x2, d[2..]) by {
      assert d[1..][0] == (5 * v, [five]) && d[1..][1..] == d[2..];
      ScaledRowStep(x1, x2, q1, r, v, 5, d[1..]);
    }
    assert EncodeRows(x2, d[2..]) == Repeat([one, five], q2 / 4) + EncodeRows(x3, d[3..])
        && Remainder(x2, d[2..]) == Remainder(x3, d[3..]) by {
      assert d[2..][0] == (4 * v, [one, five]) && d[2..][1..] == d[3..];
      ScaledRowStep(x2, x3, q2, r, v, 4, d[2..]);
    }
    assert EncodeRows(x3, d[3..]) == Repeat([one], q3 / 1) && Remainder(x3, d[3..]) == r by {
      assert d[3..][0] == (v, [one]) && d[3..][1..] == d[4..] && |d| == 4;
      ScaledRowStep(x3, r, q3, r, v, 1, d[3..]);
      assert EncodeRows(r, d[4..]) == [] by { assert |d[4..]| == 0; }
    }
  }

  /** The four rows of one decimal position spell that position's digit and
      leave what is below it. */
  lemma DecadeEncoding(x: nat, q: nat, r: nat, v: Pos, one: Digit, five: Digit, ten: Digit)
    requires q < 10 && r < v && x == q * v + r
    ensures EncodeRows(x, Decade(v, one, five, ten)) == DecimalDigit(q, one, five, ten)
    ensures Remainder(x, Decade(v, one, five, ten)) == r
  {
    DecadeSteps(x, q, r, v, one, five, ten);
    DecimalDigitGreedy(q, one, five, ten);
    var a, b, c, e := Repeat([one, ten], q / 9), Repeat([five], q % 9 / 5),
      Repeat([one, five], q % 9 % 5 / 4), Repeat([one], q % 9 % 5 % 4 / 1);
    assert a + (b + (c + e)) == a + b + c + e;
  }

  /** The greedy table walk produces the canonical numeral, for every number. */
  lemma EncodeIsCanonical(n: nat)
    ensures Encode(n) == Canonical(n)
  {
    var thousands := [(1000, [M])];
    var hundreds, tens, units := Decade(100, C, D, M), Decade(10, X, L, C), Decade(1, I, V, X);
    TableByDecades();
    var h, t, u := n / 100 % 10, n / 10 % 10, n % 10;
    PositionSplit(n, 100, 10);
    PositionSplit(n, 10, 10);
    assert EncodeRows(n, thousands) == Repeat([M], n / 1000) + [];
    assert Remainder(n, thousands) == n % 1000;
    DecadeEncoding(n % 1000, h, n % 100, 100, C, D, M);
    DecadeEncoding(n % 100, t, u, 10, X, L, C);
    DecadeEncoding(u, u, 0, 1, I, V, X);
    EncodeRowsAppend(n, thousands, hundreds);
    EncodeRowsAppend(n, thousands + hundreds, tens);
    EncodeRowsAppend(n, thousands + hundreds + tens, units);
  }

  /** The canonical numerals of the encoder's documented examples; with
      `EncodeIsCanonical` they are what the encoder emits. */
  lemma CanonicalExamples()
    ensures Canonical(3) == [I, I, I]
    ensures Canonical(8) == [V, I, I, I]
    ensures Canonical(9) == [I, X]
    ensures Canonical(1994) == [M, C, M, X, C, I, V]
  {
    RepeatSmall([M]);
    var none := Repeat([M], 0) + DecimalDigit(0, C, D, M) + DecimalDigit(0, X, L, C);
    assert none == [];
    assert Canonical(3) == none + DecimalDigit(3, I, V, X);
    assert Canonical(8) == none + DecimalDigit(8, I, V, X);
    assert Canonical(9) == none + DecimalDigit(9, I, V, X);
    assert Canonical(1994) == [M] + [C, M] + [X, C] + [I, V] by {
      assert 1994 / 1000 == 1 && 1994 / 100 % 10 == 9 && 1994 / 10 % 10 == 9 && 1994 % 10 == 4;
      assert DecimalDigit(9, C, D, M) == [C, M] && DecimalDigit(9, X, L, C) == [X, C];
      assert DecimalDigit(4, I, V, X) == [I, V];
    }
  }

  /** The four digits starting at `i` are all the same. */
  predicate FourSame(s: seq<Digit>, i: nat)
    requires i + 3 < |s|
  {
    s[i] == s[i + 1] && s[i + 1] == s[i + 2] && s[i + 2] == s[i + 3]
  }

  /** No digit appears four times in a row. */
  predicate NoFourInARow(s: seq<Digit>)
  {
    forall i: nat :: i + 3 < |s| ==> !FourSame(s, i)
  }

  lemma DecimalDigitShape(q: nat, one: Digit, five: Digit, ten: Digit)
    requires q < 10 && one != five
    ensures var s := DecimalDigit(q, one, five, ten);
      |s| <= 4 && NoFourInARow(s) &&
      (forall j :: 0 <= j < |s| ==> s[j] in {one, five, ten}) &&
      (s != [] ==> s[0] in {one, five})
  {
  }

  /** Joining two sequences without four equal digits in a row keeps that
      property when every digit on the left outweighs the first on the right. */
  lemma NoFourConcat(a: seq<Digit>, b: seq<Digit>, bound: nat)
    requires NoFourInARow(a) && NoFourInARow(b)
    requires forall j :: 0 <= j < |a| ==> Value(a[j]) >= bound
    requires b != [] ==> Value(b[0]) < bound
    ensures NoFourInARow(a + b)
  {
    var s := a + b;
    forall i: nat | i + 3 < |s|
      ensures !FourSame(s, i)
    {
      if i + 3 < |a| {
        assert s[i] == a[i] && s[i + 1] == a[i + 1] && s[i + 2] == a[i + 2] && s[i + 3] == a[i + 3];
        assert !FourSame(a, i);
      } else if |a| <= i {
        var k := i - |a|;
        assert s[i] == b[k] && s[i + 1] == b[k + 1] && s[i + 2] == b[k + 2] && s[i + 3] == b[k + 3];
        assert !FourSame(b, k);
      } else {
        assert Value(s[|a| - 1]) >= bound && Value(s[|a|]) < bound by {
          assert s[|a| - 1] == a[|a| - 1] && s[|a|] == b[0];
        }
        StepBreaksRun(s, i, |a| - 1);
      }
    }
  }

  /** Two different neighbours inside a window of four break the run. */
  lemma StepBreaksRun(s: seq<Digit>, i: nat, j: nat)
    requires i <= j < i + 3 && i + 3 < |s| && s[j] != s[j + 1]
    ensures !FourSame(s, i)
  {
  }

  lemma {:induction false} RepeatAll(row: seq<Digit>, count: nat)
    requires |row| == 1
    ensures |Repeat(row, count)| == count
    ensures forall j :: 0 <= j < |Repeat(row, count)| ==> Repeat(row, count)[j] == row[0]
  {
    if count > 0 {
      RepeatAll(row, count - 1);
    }
  }

  /** At most three M followed by three spelled decimal digits: at most 15
      digits, never four equal ones in a row. */
  lemma ShapeOfDigits(k: nat, qh: nat, qt: nat, qu: nat)
    requires k <= 3 && qh < 10 && qt < 10 && qu < 10
    ensures var s := Repeat([M], k) + DecimalDigit(qh, C, D, M)
                     + DecimalDigit(qt, X, L, C) + DecimalDigit(qu, I, V, X);
      |s| <= 15 && NoFourInARow(s)
  {
    var ms := Repeat([M], k);
    var h := DecimalDigit(qh, C, D, M);
    var t := DecimalDigit(qt, X, L, C);
    var u := DecimalDigit(qu, I, V, X);
    DecimalDigitShape(qh, C, D, M);
    DecimalDigitShape(qt, X, L, C);
    DecimalDigitShape(qu, I, V, X);
    RepeatAll([M], k);
    NoFourConcat(ms, h, 1000);
    NoFourConcat(ms + h, t, 100);
    NoFourConcat(ms + h + t, u, 10);
  }

  /** For 1 to 3999 the encoding is at most 15 digits long (the capacity the
      encoder reserves) and never repeats a digit four times in a row. */
  lemma EncodeBounds(n: nat)
    requires 1 <= n <= 3999
    ensures |Encode(n)| <= 15
    ensures NoFourInARow(Encode(n))
  {
    EncodeIsCanonical(n);
    ShapeOfDigits(n / 1000, n / 100 % 10, n / 10 % 10, n % 10);
  }

  // ---------------------------------------------------------------------
  // Lemmas: characters and bytes
  // ---------------------------------------------------------------------

  /** A glyph's place within its case: upper case runs from U+2160 and
      lower case from U+2170, sixteen glyphs each. */
  function GlyphOffset(c: char): nat
    requires '\U{2160}' <= c <= '\U{217F}'
  {
    var offset := c as int - 0x2160;
    if offset < 16 then offset else offset - 16
  }

  /** The number a Unicode Roman numeral glyph stands for: the first twelve
      of each case are 1 to 12, the last four are L, C, D and M. */
  function GlyphNumber(c: char): nat
    requires '\U{2160}' <= c <= '\U{217F}'
  {
    var k := GlyphOffset(c);
    if k < 12 then k + 1 else [50, 100, 500, 1000][k - 12]
  }

  /** One glyph, once its expansion and number are known. */
  lemma GlyphIs(c: char, digits: seq<Digit>, v: nat)
    requires '\U{2160}' <= c <= '\U{217F}'
    requires FromChar(c) == Ok(digits) && Decode(digits) == v && GlyphNumber(c) == v
    ensures FromChar(c).Ok? && Decode(FromChar(c).value) == GlyphNumber(c)
  {
  }

  /** `GlyphValue` for Ⅰ Ⅱ ⅰ ⅱ. */
  lemma GlyphValueOneTwo(c: char)
    requires '\U{2160}' <= c <= '\U{217F}' && 0 <= GlyphOffset(c) < 2
    ensures FromChar(c).Ok? && Decode(FromChar(c).value) == GlyphNumber(c)
  {
    if GlyphOffset(c) == 0 {
      assert FromChar(c) == Ok([I]);
      GlyphIs(c, [I], 1);
    } else {
      assert FromChar(c) == Ok([I, I]);
      GlyphIs(c, [I, I], 2);
    }
  }

  /** `GlyphValue` for Ⅲ Ⅳ ⅲ ⅳ. */
  lemma GlyphValueThreeFour(c: char)
    requires '\U{2160}' <= c <= '\U{217F}' && 2 <= GlyphOffset(c) < 4
    ensures FromChar(c).Ok? && Decode(FromChar(c).value) == GlyphNumber(c)
  {
    if GlyphOffset(c) == 2 {
      assert FromChar(c) == Ok([I, I, I]);
      GlyphIs(c, [I, I, I], 3);
    } else {
      assert FromChar(c) == Ok([I, V]);
      GlyphIs(c, [I, V], 4);
    }
  }

  /** `GlyphValue` for Ⅴ Ⅵ ⅴ ⅵ. */
  lemma GlyphValueFiveSix(c: char)
    requires '\U{2160}' <= c <= '\U{217F}' && 4 <= GlyphOffset(c) < 6
    ensures FromChar(c).Ok? && Decode(FromChar(c).value) == GlyphNumber(c)
  {
    if GlyphOffset(c) == 4 {
      assert FromChar(c) == Ok([V]);
      GlyphIs(c, [V], 5);
    } else {
      assert FromChar(c) == Ok([V, I]);
      GlyphIs(c, [V, I], 6);
    }
  }

  /** `GlyphValue` for Ⅶ Ⅷ ⅶ ⅷ. */
  lemma GlyphValueSevenEight(c: char)
    requires '\U{2160}' <= c <= '\U{217F}' && 6 <= GlyphOffset(c) < 8
    ensures FromChar(c).Ok? && Decode(FromChar(c).value) == GlyphNumber(c)
  {
    if GlyphOffset(c) == 6 {
      assert FromChar(c) == Ok([V, I, I]);
      GlyphIs(c, [V, I, I], 7);
    } else {
      assert FromChar(c) == Ok([V, I, I, I]);
      GlyphIs(c, [V, I, I, I], 8);
    }
  }

  /** `GlyphValue` for Ⅸ Ⅹ ⅸ ⅹ. */
  lemma GlyphValueNineTen(c: char)
    requires '\U{2160}' <= c <= '\U{217F}' && 8 <= GlyphOffset(c) < 10
    ensures FromChar(c).Ok? && Decode(FromChar(c).value) == GlyphNumber(c)
  {
    if GlyphOffset(c) == 8 {
      assert FromChar(c) == Ok([I, X]);
      GlyphIs(c, [I, X], 9);
    } else {
      assert FromChar(c) == Ok([X]);
      GlyphIs(c, [X], 10);
    }
  }

  /** `GlyphValue` for Ⅺ Ⅻ ⅺ ⅻ. */
  lemma GlyphValueElevenTwelve(c: char)
    requires '\U{2160}' <= c <= '\U{217F}' && 10 <= GlyphOffset(c) < 12
    ensures FromChar(c).Ok? && Decode(FromChar(c).value) == GlyphNumber(c)
  {
    if GlyphOffset(c) == 10 {
      assert FromChar(c) == Ok([X, I]);
      GlyphIs(c, [X, I], 11);
    } else {
      assert FromChar(c) == Ok([X, I, I]);
      GlyphIs(c, [X, I, I], 12);
    }
  }

  /** `GlyphValue` for Ⅼ Ⅽ ⅼ ⅽ. */
  lemma GlyphValueLC(c: char)
    requires '\U{2160}' <= c <= '\U{217F}' && 12 <= GlyphOffset(c) < 14
    ensures FromChar(c).Ok? && Decode(FromChar(c).value) == GlyphNumber(c)
  {
    if GlyphOffset(c) == 12 {
      assert FromChar(c) == Ok([L]);
      GlyphIs(c, [L], 50);
    } else {
      assert FromChar(c) == Ok([C]);
      GlyphIs(c, [C], 100);
    }
  }

  /** `GlyphValue` for Ⅾ Ⅿ ⅾ ⅿ. */
  lemma GlyphValueDM(c: char)
    requires '\U{2160}' <= c <= '\U{217F}' && 14 <= GlyphOffset(c) < 16
    ensures FromChar(c).Ok? && Decode(FromChar(c).value) == GlyphNumber(c)
  {
    if GlyphOffset(c) == 14 {
      assert FromChar(c) == Ok([D]);
      GlyphIs(c, [D], 500);
    } else {
      assert FromChar(c) == Ok([M]);
      GlyphIs(c, [M], 1000);
    }
  }

  /** Every glyph expands to digits whose value is the glyph's number. */
  lemma GlyphValue(c: char)
    requires '\U{2160}' <= c <= '\U{217F}'
    ensures FromChar(c).Ok? && Decode(FromChar(c).value) == GlyphNumber(c)
  {
    var k := GlyphOffset(c);
    if k < 2 {
      GlyphValueOneTwo(c);
    } else if k < 4 {
      GlyphValueThreeFour(c);
    } else if k < 6 {
      GlyphValueFiveSix(c);
    } else if k < 8 {
      GlyphValueSevenEight(c);
    } else if k < 10 {
      GlyphValueNineTen(c);
    } else if k < 12 {
      GlyphValueElevenTwelve(c);
    } else if k < 14 {
      GlyphValueLC(c);
    } else {
      GlyphValueDM(c);
    }
  }

  /** A lower-case glyph expands exactly as its upper-case partner. */
  lemma GlyphCaseInsensitive(k: nat)
    requires k < 16
    ensures FromChar((0x2170 + k) as char) == FromChar((0x2160 + k) as char)
  {
  }

  /** The documented character examples: ASCII letters of either case, the
      glyphs for eight and (lower-case) four, and a rejected letter. */
  lemma GlyphExamples()
    ensures FromChar('v') == Ok([V])
    ensures FromChar('X') == Ok([X])
    ensures FromChar('\U{2167}') == Ok([V, I, I, I])
    ensures FromChar('\U{2173}') == Ok([I, V])
    ensures FromChar('A') == Err(InvalidDigit('A'))
  {
  }

  /** A byte `FromByte` accepts is one of the two renderings of its digit. */
  lemma FromByteRenders(b: Byte)
    requires FromByte(b).Ok?
    ensures ByteChar(b) == ToUppercase(FromByte(b).value) || ByteChar(b) == ToLowercase(FromByte(b).value)
  {
  }

  /** ASCII case mapping moves between the two renderings of a digit. */
  lemma CaseMapsRenderings(d: Digit)
    ensures AsciiUpper(ToLowercase(d)) == AsciiUpper(ToUppercase(d)) == ToUppercase(d)
    ensures AsciiLower(ToUppercase(d)) == AsciiLower(ToLowercase(d)) == ToLowercase(d)
  {
  }

  /** On ASCII letters `FromChar` is case-insensitive and agrees with
      `FromByte`. */
  lemma FromCharAscii(b: Byte)
    requires FromByte(b).Ok?
    ensures FromChar(ByteChar(b)) == Ok([FromByte(b).value])
    ensures FromChar(AsciiUpper(ByteChar(b))) == FromChar(AsciiLower(ByteChar(b)))
  {
    var d := FromByte(b).value;
    FromByteRenders(b);
    CaseMapsRenderings(d);
    RenderRoundTrip(d);
  }

  /** Both renderings read back as the same digit, and the lower-case one is
      the ASCII lower case of the upper-case one. */
  lemma RenderRoundTrip(d: Digit)
    ensures FromByte(ToUppercase(d) as int) == Ok(d)
    ensures FromByte(ToLowercase(d) as int) == Ok(d)
    ensures ToLowercase(d) == AsciiLower(ToUppercase(d))
    ensures FromChar(ToLowercase(d)) == FromChar(ToUppercase(d)) == Ok([d])
  {
  }

  /** `char::from(&d)` and `Display` both render `to_uppercase`. */
  lemma RenderUppercase(d: Digit)
    ensures CharFrom(d) == ToUppercase(d)
    ensures Display(d) == [ToUppercase(d)]
  {
  }

  /** The documented magnitudes, shared by `Deref` and `From<Digit> for u32`. */
  lemma Magnitudes()
    ensures Value(I) == 1 && Value(V) == 5 && Value(X) == 10 && Value(L) == 50
    ensures Value(C) == 100 && Value(D) == 500 && Value(M) == 1000
    ensures forall d :: Deref(d) == U32From(d) == Value(d)
  {
  }
}
