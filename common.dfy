/** Values shared by the whole monitor: the outcome of a call that may throw
    `Errno`, C integer widths, decimal formatting as `%d` prints it, and the
    string helpers the renderers and path builders rely on. */
module Common {

  /** The result of an operation that either yields a value or throws
      `Errno` carrying the `errno` captured at the throw. */
  datatype Result<T> = Ok(value: T) | Err(errno: int)

  /** A C `int` (also `pid_t` and a descriptor number). */
  type Int32 = x: int | -0x8000_0000 <= x < 0x8000_0000

  /** `PATH_MAX` from <limits.h>. */
  const PathMax: nat := 4096

  function Min(a: int, b: int): int { if a <= b then a else b }

  // ---------------------------------------------------------------------
  // Decimal rendering, as `%d` and `operator<<(int)` print an integer.
  // ---------------------------------------------------------------------

  predicate IsDigit(c: char) { '0' <= c <= '9' }

  predicate AllDigits(s: string) { forall i :: 0 <= i < |s| ==> IsDigit(s[i]) }

  function DigitChar(d: nat): (c: char)
    requires d < 10
    ensures IsDigit(c)
  {
    (('0' as int) + d) as char
  }

  function DigitValue(c: char): (d: nat)
    requires IsDigit(c)
    ensures d < 10
  {
    (c as int) - ('0' as int)
  }

  /** The decimal digits of `n`, most significant first, without leading zeros. */
  function NatDigits(n: nat): (s: string)
    ensures 1 <= |s| && AllDigits(s)
    ensures |s| > 1 ==> s[0] != '0'
  {
    if n < 10 then [DigitChar(n)] else NatDigits(n / 10) + [DigitChar(n % 10)]
  }

  /** What `%d` prints for `n`: an optional minus sign and the digits. */
  function Decimal(n: int): (s: string)
  {
    if n < 0 then "-" + NatDigits(-n) else NatDigits(n)
  }

  function ParseNat(s: string): nat
    requires AllDigits(s)
  {
    if s == [] then 0 else ParseNat(s[..|s| - 1]) * 10 + DigitValue(s[|s| - 1])
  }

  predicate IsDecimal(s: string)
  {
    if |s| > 0 && s[0] == '-' then 1 < |s| && AllDigits(s[1..]) else 1 <= |s| && AllDigits(s)
  }

  function ParseDecimal(s: string): int
    requires IsDecimal(s)
  {
    if s[0] == '-' then var m: int := ParseNat(s[1..]); -m else ParseNat(s)
  }

  lemma {:induction false} NatDigitsRoundTrip(n: nat)
    ensures ParseNat(NatDigits(n)) == n
  {
    if n >= 10 {
      var s := NatDigits(n);
      assert s[..|s| - 1] == NatDigits(n / 10);
      NatDigitsRoundTrip(n / 10);
    }
  }

  /** `Decimal` is a well-formed decimal numeral that reads back as `n`. */
  lemma DecimalRoundTrip(n: int)
    ensures IsDecimal(Decimal(n)) && ParseDecimal(Decimal(n)) == n
  {
    if n < 0 {
      assert Decimal(n)[1..] == NatDigits(-n);
      NatDigitsRoundTrip(-n);
    } else {
      NatDigitsRoundTrip(n);
    }
  }

  function Pow10(k: nat): (p: nat)
    ensures p >= 1
  {
    if k == 0 then 1 else 10 * Pow10(k - 1)
  }

  lemma {:induction false} NatDigitsLength(n: nat, k: nat)
    requires 1 <= k && n < Pow10(k)
    ensures |NatDigits(n)| <= k
  {
    if n >= 10 {
      assert k >= 2;
      NatDigitsLength(n / 10, k - 1);
    }
  }

  /** A C `int` prints in at most eleven characters (`-2147483648`). */
  lemma DecimalInt32Length(n: Int32)
    ensures |Decimal(n)| <= 11
  {
    assert Pow10(10) == 10_000_000_000;
    var m: int := n;
    NatDigitsLength(if m < 0 then -m else m, 10);
  }

  // ---------------------------------------------------------------------
  // C strings and fixed-size buffers.
  // ---------------------------------------------------------------------

  /** The first `n` characters of `s`, or all of it when it is shorter. */
  function Truncate(s: string, n: nat): (r: string)
    ensures |r| == Min(|s|, n) && r == s[..|r|]
  {
    if |s| <= n then s else s[..n]
  }

  /** The `std::string` built from a `char *`: everything before the first NUL. */
  function CString(s: string): (r: string)
    ensures |r| <= |s| && '\0' !in r
    ensures r == s[..|r|]
    ensures |r| < |s| ==> s[|r|] == '\0'
  {
    if s == [] || s[0] == '\0' then [] else [s[0]] + CString(s[1..])
  }

  lemma {:induction false} CStringOfNulFree(s: string)
    requires '\0' !in s
    ensures CString(s) == s
  {
    if s != [] {
      CStringOfNulFree(s[1..]);
    }
  }

  // ---------------------------------------------------------------------
  // Joining names with a separator, as the mask renderer does with "|".
  // ---------------------------------------------------------------------

  /** The names separated by `|`, with no separator before the first or after the last. */
  function Join(names: seq<string>): string
  {
    if |names| == 0 then ""
    else if |names| == 1 then names[0]
    else names[0] + "|" + Join(names[1..])
  }

  lemma {:induction false} JoinSnoc(names: seq<string>, name: string)
    ensures Join(names + [name]) == if names == [] then name else Join(names) + "|" + name
  {
    if |names| >= 2 {
      assert (names + [name])[1..] == names[1..] + [name];
      JoinSnoc(names[1..], name);
    } else if |names| == 1 {
      assert (names + [name])[1..] == [name];
    }
  }

  /** `s` cut at every `|`; a string without `|` is a single field. */
  function Fields(s: string): (r: seq<string>)
    ensures |r| >= 1
  {
    if s == [] then [""]
    else if s[0] == '|' then [""] + Fields(s[1..])
    else var rest := Fields(s[1..]); [[s[0]] + rest[0]] + rest[1..]
  }

  /** The names that a `|`-joined rendering lists; the empty rendering lists none. */
  function Split(s: string): seq<string>
  {
    if s == [] then [] else Fields(s)
  }

  lemma {:induction false} FieldsOfPlain(x: string)
    requires '|' !in x
    ensures Fields(x) == [x]
  {
    if x != [] {
      assert x[0] in x && x[0] != '|';
      FieldsOfPlain(x[1..]);
      assert [x[0]] + x[1..] == x;
    }
  }

  lemma {:induction false} FieldsOfBar(x: string, rest: string)
    requires '|' !in x
    ensures Fields(x + "|" + rest) == [x] + Fields(rest)
  {
    if x == [] {
      assert x + "|" + rest == "|" + rest;
      assert ("|" + rest)[1..] == rest;
    } else {
      assert x[0] in x && x[0] != '|';
      assert (x + "|" + rest)[0] == x[0];
      assert (x + "|" + rest)[1..] == x[1..] + "|" + rest;
      FieldsOfBar(x[1..], rest);
      assert [x[0]] + x[1..] == x;
    }
  }

  /** Every name is a non-empty string with no `|` in it. */
  predicate PlainNames(names: seq<string>)
  {
    forall k :: 0 <= k < |names| ==> names[k] != "" && '|' !in names[k]
  }

  /** Joining plain names loses nothing: the rendering splits back into them. */
  lemma {:induction false} SplitJoin(names: seq<string>)
    requires PlainNames(names)
    ensures Split(Join(names)) == names
  {
    if |names| == 1 {
      FieldsOfPlain(names[0]);
    } else if |names| >= 2 {
      assert PlainNames(names[1..]) by {
        forall k | 0 <= k < |names| - 1 ensures names[1..][k] != "" && '|' !in names[1..][k] {
          assert names[1..][k] == names[k + 1];
        }
      }
      SplitJoin(names[1..]);
      FieldsOfBar(names[0], Join(names[1..]));
      assert Join(names[1..]) != [] by { JoinNonEmpty(names[1..]); }
    }
  }

  /** Plain names join to the empty string only when there are none, and the
      rendering never begins or ends with the separator. */
  lemma {:induction false} JoinNonEmpty(names: seq<string>)
    requires PlainNames(names)
    ensures Join(names) == [] <==> names == []
    ensures Join(names) != [] ==> Join(names)[0] != '|' && Join(names)[|Join(names)| - 1] != '|'
  {
    if |names| == 1 {
      assert names[0] in names;
    } else if |names| >= 2 {
      assert PlainNames(names[1..]) by {
        forall k | 0 <= k < |names| - 1 ensures names[1..][k] != "" && '|' !in names[1..][k] {
          assert names[1..][k] == names[k + 1];
        }
      }
      JoinNonEmpty(names[1..]);
      var s := Join(names);
      assert s == names[0] + "|" + Join(names[1..]);
      assert s[0] == names[0][0];
      assert s[|s| - 1] == Join(names[1..])[|Join(names[1..])| - 1];
    }
  }
}
