/** The library pieces `ShellClient::telnet` leans on, at the level the
    source uses them: 64-bit `size_t` arithmetic with wrap-around,
    `std::string_view::find_first_of` with its `npos` answer, `substr`, and
    `std::stoul` in base 10. */
module Words {
  import opened Strings

  datatype Option<+T> = None | Some(value: T)

  /** 2^64: `size_t` and `unsigned long` are 64 bits wide on the targets the
      program is built for. */
  const WORD: int := 0x1_0000_0000_0000_0000

  /** `std::string_view::npos`, the largest `size_t`. */
  const NPOS: nat := WORD - 1

  /** The largest `unsigned long`. */
  const ULONG_MAX: nat := WORD - 1

  /** A `std::string` is never longer than its `max_size()`, which is
      below `npos`. */
  predicate Fits(s: string) {
    |s| < NPOS
  }

  /** Unsigned wrap-around: the value `x` takes in a 64-bit word. */
  function Wrap(x: int): (r: nat)
    ensures r < WORD && (0 <= x < WORD ==> r == x) && (-WORD <= x < 0 ==> r == x + WORD)
    ensures WORD <= x < 2 * WORD ==> r == x - WORD
  {
    x % WORD
  }

  /** Index of the first occurrence of `ch` in `s`, if any. */
  function IndexOf(s: string, ch: char): (r: Option<nat>)
    ensures r.Some? ==> r.value < |s|
  {
    if s == [] then None
    else if s[0] == ch then Some(0)
    else
      match IndexOf(s[1..], ch)
      case None => None
      case Some(i) => Some(i + 1)
  }

  /** `IndexOf` finds the first occurrence, and finds none only when there
      is none. */
  lemma {:induction false} IndexOfIsFirst(s: string, ch: char)
    ensures IndexOf(s, ch).None? <==> ch !in s
    ensures var r := IndexOf(s, ch); r.Some? ==> s[r.value] == ch && ch !in s[..r.value]
  {
    if s != [] && s[0] != ch {
      IndexOfIsFirst(s[1..], ch);
      var r := IndexOf(s[1..], ch);
      if r.Some? {
        assert s[..r.value + 1] == [s[0]] + s[1..][..r.value];
      }
    }
  }

  /** `find_first_of` for a one-character set, as a `size_t`: the index of
      the first `ch`, or `npos` when there is none. */
  function FindFirstOf(s: string, ch: char): nat {
    match IndexOf(s, ch)
    case None => NPOS
    case Some(i) => i
  }

  /** `find_first_of` answers `npos` exactly when `ch` does not occur, and
      otherwise the index of its first occurrence. */
  lemma FindFirstOfIsFirst(s: string, ch: char)
    requires Fits(s)
    ensures ch !in s <==> FindFirstOf(s, ch) == NPOS
    ensures var r := FindFirstOf(s, ch); ch in s ==> r < |s| && s[r] == ch && ch !in s[..r]
  {
    IndexOfIsFirst(s, ch);
  }

  /** `substr(pos, count)`: at most `count` characters from `pos` on. The
      source only calls it with `pos <= size()`, the case in which it does
      not throw. */
  function Substr(s: string, pos: nat, count: nat): (r: string)
    requires pos <= |s|
    ensures |r| <= count && r <= s[pos..]
    ensures |r| == count || |r| == |s| - pos
  {
    s[pos..if count < |s| - pos then pos + count else |s|]
  }

  predicate IsDigit(c: char) {
    '0' <= c <= '9'
  }

  predicate AllDigits(d: string) {
    forall k :: 0 <= k < |d| ==> IsDigit(d[k])
  }

  /** The longest prefix of `s` made of decimal digits. */
  function DigitRun(s: string): string {
    if s == [] || !IsDigit(s[0]) then [] else [s[0]] + DigitRun(s[1..])
  }

  /** `DigitRun` is a prefix, made of digits, that stops only before a
      non-digit or at the end. */
  lemma {:induction false} DigitRunIsMaximal(s: string)
    ensures var d := DigitRun(s);
      |d| <= |s| && d == s[..|d|] && AllDigits(d) && (|d| < |s| ==> !IsDigit(s[|d|]))
  {
    if s != [] && IsDigit(s[0]) {
      DigitRunIsMaximal(s[1..]);
    }
  }

  function DigitValue(c: char): nat {
    if IsDigit(c) then c as int - '0' as int else 0
  }

  /** The number a string of decimal digits denotes. */
  function DecimalValue(d: string): nat {
    if d == [] then 0 else 10 * DecimalValue(d[..|d| - 1]) + DigitValue(d[|d| - 1])
  }

  /** `std::stoul(text)` in base 10, as `strtoul` reads it: leading
      whitespace is skipped, one `+` or `-` may follow, then at least one
      digit is needed (otherwise `std::invalid_argument`); a magnitude above
      `ULONG_MAX` is `std::out_of_range`; a `-` negates in unsigned
      arithmetic. Characters after the digits are ignored. `None` stands for
      either exception. */
  function Stoul(text: string): (r: Option<nat>)
    ensures r.Some? ==> r.value <= ULONG_MAX
  {
    var body := LeftTrimmed(text);
    var signed := body != [] && (body[0] == '+' || body[0] == '-');
    var digits := DigitRun(if signed then body[1..] else body);
    if digits == [] then None
    else if DecimalValue(digits) > ULONG_MAX then None
    else if signed && body[0] == '-' then Some(Wrap(0 - DecimalValue(digits) as int))
    else Some(DecimalValue(digits))
  }

  /** `stoul` throws `std::invalid_argument` on text that, after its
      leading whitespace, starts with neither a sign nor a digit. */
  lemma StoulNeedsDigit(text: string)
    requires var body := LeftTrimmed(text);
      body == [] || (!IsDigit(body[0]) && body[0] != '+' && body[0] != '-')
    ensures Stoul(text) == None
  {
  }

  /** The decimal spelling of `n`, without leading zeros. */
  function ToDecimal(n: nat): (d: string)
    ensures d != [] && AllDigits(d)
    ensures n > 0 ==> d[0] != '0'
  {
    var last := ['0' + (n % 10) as char];
    if n < 10 then last else ToDecimal(n / 10) + last
  }

  /** Reading back the decimal spelling of a number gives the number. */
  lemma {:induction false} DecimalRoundTrip(n: nat)
    ensures DecimalValue(ToDecimal(n)) == n
  {
    var d := ToDecimal(n);
    if n >= 10 {
      DecimalRoundTrip(n / 10);
      assert d[..|d| - 1] == ToDecimal(n / 10);
    }
  }

  lemma {:induction false} DigitRunOfDecimal(d: string, rest: string)
    requires AllDigits(d)
    requires rest == [] || !IsDigit(rest[0])
    ensures DigitRun(d + rest) == d
  {
    if d != [] {
      DigitRunOfDecimal(d[1..], rest);
      assert (d + rest)[1..] == d[1..] + rest;
    }
  }

  /** `stoul` of a digit string followed by anything that is not a digit is
      the value of the digits, if it fits an `unsigned long`. */
  lemma StoulOfDecimal(d: string, rest: string)
    requires d != [] && AllDigits(d) && DecimalValue(d) <= ULONG_MAX
    requires rest == [] || !IsDigit(rest[0])
    ensures Stoul(d + rest) == Some(DecimalValue(d))
  {
    DigitRunOfDecimal(d, rest);
  }

  /** Every `unsigned long` survives being written in decimal and read back
      by `stoul`. */
  lemma StoulRoundTrip(n: nat)
    requires n <= ULONG_MAX
    ensures Stoul(ToDecimal(n)) == Some(n)
  {
    DecimalRoundTrip(n);
    StoulOfDecimal(ToDecimal(n), []);
    assert ToDecimal(n) + [] == ToDecimal(n);
  }
}
