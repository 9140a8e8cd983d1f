/** Log/logstream.h: the fixed-size log buffer and the in-place integer formatter. */
module LogStream {

  const K_SMALL_BUFFER := 4000
  const K_LARGE_BUFFER := 4000 * 1000
  const K_MAX_NUMERIC_SIZE := 32

  /** One past the largest value of the widest integer type that is formatted. */
  const TWO_TO_THE_64: int := 0x1_0000_0000_0000_0000

  // ---------------------------------------------------------------- decimal text

  predicate IsDigit(c: char) {
    '0' <= c <= '9'
  }

  function Digit(d: nat): (c: char)
    requires d < 10
    ensures IsDigit(c) && c as int - '0' as int == d
  {
    '0' + d as char
  }

  function DigitValue(c: char): (d: nat)
    requires IsDigit(c)
    ensures d < 10 && Digit(d) == c
  {
    c as int - '0' as int
  }

  /** The canonical decimal text of a number. */
  function Decimal(v: nat): string {
    if v < 10 then [Digit(v)] else Decimal(v / 10) + [Digit(v % 10)]
  }

  /** Reading decimal text back, most significant digit first. */
  function Value(s: string): nat
    requires forall c | c in s :: IsDigit(c)
  {
    if s == [] then 0 else 10 * Value(s[..|s| - 1]) + DigitValue(s[|s| - 1])
  }

  ghost predicate Canonical(s: string) {
    s != [] && (forall c | c in s :: IsDigit(c)) && (|s| > 1 ==> s[0] != '0')
  }

  lemma {:induction false} DecimalIsCanonical(v: nat)
    ensures Canonical(Decimal(v))
    ensures v > 0 ==> Decimal(v)[0] != '0'
  {
    if v >= 10 {
      DecimalIsCanonical(v / 10);
    }
  }

  lemma {:induction false} ValueOfDecimal(v: nat)
    ensures Canonical(Decimal(v)) && Value(Decimal(v)) == v
  {
    DecimalIsCanonical(v);
    if v >= 10 {
      ValueOfDecimal(v / 10);
      var s := Decimal(v);
      assert s[..|s| - 1] == Decimal(v / 10);
    } else {
      var s := Decimal(v);
      assert s[..|s| - 1] == [];
    }
  }

  /** Every canonical text is the text of exactly its own value: no other text prints the same. */
  lemma {:induction false} DecimalOfValue(s: string)
    requires Canonical(s)
    ensures Decimal(Value(s)) == s
    ensures s[0] != '0' ==> Value(s) > 0
  {
    var init, last := s[..|s| - 1], s[|s| - 1];
    assert s == init + [last];
    if init == [] {
      assert Value(s) == DigitValue(last);
    } else {
      assert init[0] == s[0];
      DecimalOfValue(init);
      assert Value(s) / 10 == Value(init);
    }
  }

  function Pow10(k: nat): nat {
    if k == 0 then 1 else 10 * Pow10(k - 1)
  }

  lemma {:induction false} DecimalLength(v: nat, k: nat)
    requires v < Pow10(k) && k > 0
    ensures |Decimal(v)| <= k
  {
    if v >= 10 {
      DecimalLength(v / 10, k - 1);
    }
  }

  lemma {:induction false} Pow10Sum(j: nat, k: nat)
    ensures Pow10(j + k) == Pow10(j) * Pow10(k)
  {
    if j > 0 {
      Pow10Sum(j - 1, k);
    }
  }

  /** A value of at most 64 bits takes at most 20 digits. */
  lemma WideDecimalLength(v: nat)
    requires v < TWO_TO_THE_64
    ensures |Decimal(v)| <= 20
  {
    Pow10Sum(4, 4);
    Pow10Sum(8, 8);
    Pow10Sum(16, 4);
    assert Pow10(4) == 10 * Pow10(3) == 100 * Pow10(2) == 10000;
    DecimalLength(v, 20);
  }

  // ---------------------------------------------------------------- what the source prints

  /** Division and remainder of the source's integers, which truncate towards zero. */
  function TruncatedDiv(i: int): int {
    if i >= 0 then i / 10 else -(-i / 10)
  }

  function TruncatedMod(i: int): (a: int)
    ensures -10 < a < 10 && i == 10 * TruncatedDiv(i) + a
  {
    if i >= 0 then i % 10 else -(-i % 10)
  }

  /** `a + '0'`, also for a negative remainder. */
  function RemainderChar(a: int): char
    requires -10 < a < 10
  {
    ('0' as int + a) as char
  }

  /** The remainders of a number, the most significant first. */
  function Remainders(i: int): (s: string)
    ensures |s| > 0
    decreases if i < 0 then -i else i
  {
    (if TruncatedDiv(i) == 0 then [] else Remainders(TruncatedDiv(i))) + [RemainderChar(TruncatedMod(i))]
  }

  /** What `convert` prints. */
  function Formatted(v: int): string {
    (if v < 0 then "-" else "") + Remainders(v)
  }

  /** What it should print. */
  function SignedDecimal(v: int): string {
    if v < 0 then "-" + Decimal(-v) else Decimal(v)
  }

  lemma {:induction false} RemaindersOfNat(v: nat)
    ensures Remainders(v) == Decimal(v)
  {
    if v >= 10 {
      RemaindersOfNat(v / 10);
    }
  }

  lemma {:induction false} RemaindersOfNegative(v: int)
    requires v > 0
    ensures |Remainders(-v)| == |Decimal(v)| && Remainders(-v)[0] < '0'
  {
    if v >= 10 {
      RemaindersOfNegative(v / 10);
    }
  }

  /** The text is the decimal text exactly for the numbers that are not negative. */
  lemma DecimalExactly(v: int)
    ensures Formatted(v) == SignedDecimal(v) <==> v >= 0
  {
    if v >= 0 {
      RemaindersOfNat(v);
    } else {
      RemaindersOfNegative(-v);
      DecimalIsCanonical(-v);
      assert Decimal(-v)[0] in Decimal(-v) && IsDigit(Decimal(-v)[0]);
      assert Formatted(v)[1] == Remainders(v)[0] && SignedDecimal(v)[1] == Decimal(-v)[0];
    }
  }

  /** The values of the widest types. */
  predicate Supported(v: int) {
    -TWO_TO_THE_64 < v < TWO_TO_THE_64
  }

  lemma RemaindersLength(v: int)
    requires Supported(v)
    ensures |Remainders(v)| <= 20
  {
    if v >= 0 {
      RemaindersOfNat(v);
      WideDecimalLength(v);
    } else {
      RemaindersOfNegative(-v);
      WideDecimalLength(-v);
    }
  }

  // ---------------------------------------------------------------- in-place conversion

  function Reversed(s: string): string {
    if s == [] then [] else Reversed(s[1..]) + [s[0]]
  }

  lemma {:induction false} ReversedAt(s: string, k: nat)
    requires k < |s|
    ensures |Reversed(s)| == |s| && Reversed(s)[k] == s[|s| - 1 - k]
  {
    if |s| > 1 {
      ReversedAt(s[1..], if k < |s| - 1 then k else 0);
    }
  }

  /** `std::reverse` on a stretch of a character array. */
  method ReverseRange(buf: array<char>, lo: nat, hi: nat)
    requires lo <= hi <= buf.Length
    modifies buf
    ensures buf[..lo] == old(buf[..lo]) && buf[hi..] == old(buf[hi..])
    ensures buf[lo..hi] == Reversed(old(buf[lo..hi]))
  {
    ghost var was := buf[..];
    var i, j := lo, hi;
    while i + 1 < j
      invariant lo <= i <= j <= hi && i - lo == hi - j
      invariant forall k | lo <= k < i :: buf[k] == was[lo + hi - 1 - k] && buf[lo + hi - 1 - k] == was[k]
      invariant forall k | 0 <= k < lo || i <= k < j || hi <= k < buf.Length :: buf[k] == was[k]
      decreases j - i
    {
      j := j - 1;
      buf[i], buf[j] := buf[j], buf[i];
      i := i + 1;
    }
    forall k | lo <= k < hi
      ensures buf[k] == was[lo + hi - 1 - k]
    {
      assert j <= k ==> lo <= lo + hi - 1 - k < i;
    }
    MirroredIsReversed(was[lo..hi], buf[lo..hi]);
  }

  lemma MirroredIsReversed(s: string, r: string)
    requires |r| == |s| && forall k | 0 <= k < |s| :: r[k] == s[|s| - 1 - k]
    ensures r == Reversed(s)
  {
    if s != [] {
      ReversedAt(s, 0);
    }
    forall k | 0 <= k < |s|
      ensures |Reversed(s)| == |s| && r[k] == Reversed(s)[k]
    {
      ReversedAt(s, k);
    }
  }

  /** The digits written so far are the end of the text of `value`, and `i` is what they leave of it. */
  ghost predicate Written(value: int, i: int, digits: string) {
    && |digits| <= |Remainders(value)|
    && Remainders(value) == (if i == 0 then [] else Remainders(i)) + Reversed(digits)
  }

  lemma WriteOne(value: int, i: int, digits: string)
    requires if |digits| == 0 then i == value else i != 0 && Written(value, i, digits)
    ensures Written(value, TruncatedDiv(i), digits + [RemainderChar(TruncatedMod(i))])
  {
    var c := RemainderChar(TruncatedMod(i));
    ReversedSnoc(digits, c);
    ReversedSnoc(digits + [c], c);
    assert |digits| == 0 ==> Reversed(digits) == [];
  }

  /** The loop of `LogStream::convert`: the remainders of `value` at `at`, the least significant first. */
  method WriteDigits(buf: array<char>, at: nat, value: int) returns (p: nat)
    requires Supported(value)
    requires at + K_MAX_NUMERIC_SIZE <= buf.Length
    modifies buf
    ensures at < p <= at + 20 && Remainders(value) == Reversed(buf[at..p])
    ensures buf[..at] == old(buf[..at]) && buf[p..] == old(buf[p..])
  {
    RemaindersLength(value);
    ghost var was := buf[..];
    WriteOne(value, value, []);
    var i := TruncatedDiv(value);
    buf[at] := RemainderChar(TruncatedMod(value));
    p := at + 1;
    assert buf[at..p] == [] + [RemainderChar(TruncatedMod(value))];
    while i != 0
      invariant at < p <= at + 20 && Written(value, i, buf[at..p])
      invariant buf[..at] == was[..at] && buf[p..] == was[p..]
      decreases if i < 0 then -i else i
    {
      WriteOne(value, i, buf[at..p]);
      ghost var longer := buf[at..p] + [RemainderChar(TruncatedMod(i))];
      buf[p] := RemainderChar(TruncatedMod(i));
      i, p := TruncatedDiv(i), p + 1;
      assert buf[at..p] == longer;
    }
  }

  /** The NUL behind the digits, and their reversal. */
  method EndAndReverse(buf: array<char>, at: nat, p: nat)
    requires at <= p < buf.Length
    modifies buf
    ensures buf[at..p] == Reversed(old(buf[at..p])) && buf[p] == '\0'
    ensures buf[..at] == old(buf[..at]) && buf[p + 1..] == old(buf[p..])[1..]
  {
    ghost var digits := buf[at..p];
    buf[p] := '\0';
    assert buf[at..p] == digits;
    ghost var rest := buf[p..];
    ReverseRange(buf, at, p);
    assert buf[p] == rest[0] && buf[p + 1..] == rest[1..];
  }

  /** `LogStream::convert`: writes the remainders of `value` at `at`, the sign, and a NUL, reverses the text in
      place and returns its length. The caller guarantees `K_MAX_NUMERIC_SIZE` bytes of room. */
  method Convert(buf: array<char>, at: nat, value: int) returns (len: nat)
    requires Supported(value)
    requires at + K_MAX_NUMERIC_SIZE <= buf.Length
    modifies buf
    ensures 1 <= len <= 21
    ensures buf[at..at + len] == Formatted(value) && buf[at + len] == '\0'
    ensures buf[..at] == old(buf[..at]) && buf[at + len + 1..] == old(buf[at + len + 1..])
  {
    ghost var was := buf[..];
    var p := WriteDigits(buf, at, value);
    if value < 0 {
      ghost var digits := buf[at..p];
      buf[p] := '-';
      p := p + 1;
      assert buf[at..p] == digits + ['-'];
      ReversedSnoc(digits, '-');
    }
    len := p - at;
    assert buf[..at] == was[..at] && buf[p..] == was[p..];
    EndAndReverse(buf, at, p);
    assert buf[p + 1..] == was[p..][1..];
  }

  lemma {:induction false} ReversedSnoc(s: string, c: char)
    ensures Reversed(s + [c]) == [c] + Reversed(s)
    ensures |Reversed(s)| == |s|
  {
    if s != [] {
      assert (s + [c])[1..] == s[1..] + [c];
      ReversedSnoc(s[1..], c);
    }
  }

  // ---------------------------------------------------------------- the buffer

  /** `LogBuffer<SIZE>`: a fixed array with a write position. */
  class LogBuffer {
    const data: array<char>
    var cur: nat

    ghost predicate Valid()
      reads this
    {
      cur <= data.Length
    }

    ghost function Contents(): string
      requires Valid()
      reads this, data
    {
      data[..cur]
    }

    constructor (size: nat)
      ensures Valid() && fresh(data) && data.Length == size && Contents() == []
    {
      data := new char[size];
      cur := 0;
    }

    function Avail(): nat
      requires Valid()
      reads this
    {
      data.Length - cur
    }

    /** Stores all of `s`, or nothing at all when it does not fit. */
    method Append(s: string)
      requires Valid()
      modifies this`cur, data
      ensures Valid()
      ensures Contents() == if |s| <= old(Avail()) then old(Contents()) + s else old(Contents())
    {
      if Avail() >= |s| {
        forall k | 0 <= k < |s| {
          data[cur + k] := s[k];
        }
        assert data[cur..cur + |s|] == s;
        cur := cur + |s|;
      }
    }

    method Reset()
      modifies this`cur
      ensures Valid() && Contents() == []
    {
      cur := 0;
    }

    /** `LogStream::formatInterger`: appends the text of a number when 32 bytes are free, and otherwise
        leaves the buffer alone. The terminating NUL also stays inside the array. */
    method FormatInteger(num: int)
      requires Valid() && Supported(num)
      modifies this`cur, data
      ensures Valid()
      ensures Contents() == if old(Avail()) >= K_MAX_NUMERIC_SIZE
                            then old(Contents()) + Formatted(num) else old(Contents())
      ensures old(Avail()) >= K_MAX_NUMERIC_SIZE ==> cur < data.Length && data[cur] == '\0'
    {
      if Avail() >= K_MAX_NUMERIC_SIZE {
        var len := Convert(data, cur, num);
        assert data[..cur + len] == data[..cur] + data[cur..cur + len];
        cur := cur + len;
      }
    }
  }
}
