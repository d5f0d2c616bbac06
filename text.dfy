/** String helpers shared by every component: the Python `str` operations the
    source relies on (`strip`, `splitlines`, `split`, `join`, `startswith`,
    decimal formatting), written out over `seq<char>`.

    Whitespace is the ASCII part of what `str.isspace` accepts: space, tab,
    line feed, carriage return, vertical tab, form feed and the four
    separators U+001C to U+001F; `splitlines` splits on line feed only. */
module Text {

  datatype Option<T> = None | Some(value: T)

  /** The characters `str.strip` and the `\s` regex class remove / match. */
  predicate IsSpace(c: char) {
    c == ' ' || c == '\t' || c == '\n' || c == '\r' || c == '\U{000B}' || c == '\U{000C}'
    || ('\U{001C}' <= c <= '\U{001F}')
  }

  /** `[a-zA-Z]` */
  predicate IsAsciiLetter(c: char) {
    ('a' <= c <= 'z') || ('A' <= c <= 'Z')
  }

  /** `\w`: letters, digits and the underscore. */
  predicate IsWordChar(c: char) {
    IsAsciiLetter(c) || ('0' <= c <= '9') || c == '_'
  }

  predicate AllWordChars(s: string) {
    forall i | 0 <= i < |s| :: IsWordChar(s[i])
  }

  predicate StartsWith(s: string, prefix: string) {
    |prefix| <= |s| && s[..|prefix|] == prefix
  }

  predicate EndsWith(s: string, suffix: string) {
    |suffix| <= |s| && s[|s| - |suffix|..] == suffix
  }

  /** A string `strip` leaves alone: no whitespace at either end. */
  predicate Stripped(s: string) {
    s == [] || (!IsSpace(s[0]) && !IsSpace(s[|s| - 1]))
  }

  /** `str.lstrip()`: the longest suffix that does not start with whitespace. */
  function TrimLeft(s: string): (r: string)
    ensures |r| <= |s|
    ensures r == [] || !IsSpace(r[0])
    ensures forall i | 0 <= i < |s| - |r| :: IsSpace(s[i])
  {
    if s != [] && IsSpace(s[0]) then TrimLeft(s[1..]) else s
  }

  /** What `lstrip` keeps is a suffix of its input. */
  lemma {:induction false} TrimLeftSuffix(s: string)
    ensures TrimLeft(s) == s[|s| - |TrimLeft(s)|..]
  {
    if s != [] && IsSpace(s[0]) {
      TrimLeftSuffix(s[1..]);
    }
  }

  /** `str.rstrip()`: the longest prefix that does not end with whitespace. */
  function TrimRight(s: string): (r: string)
    ensures |r| <= |s| && r == s[..|r|]
    ensures r == [] || !IsSpace(r[|r| - 1])
    ensures forall i | |r| <= i < |s| :: IsSpace(s[i])
  {
    if s != [] && IsSpace(s[|s| - 1]) then TrimRight(s[..|s| - 1]) else s
  }

  /** `str.strip()` */
  function Strip(s: string): (r: string)
    ensures Stripped(r)
    ensures |r| <= |s|
  {
    var l := TrimLeft(s);
    var r := TrimRight(l);
    assert r != [] ==> r[0] == l[0];
    r
  }

  /** Stripping is idempotent, and a stripped string is its own strip. */
  lemma StrippedIsFixpoint(s: string)
    requires Stripped(s)
    ensures Strip(s) == s
  {
    if s != [] {
      assert TrimLeft(s) == s;
    }
  }

  lemma StripIdempotent(s: string)
    ensures Strip(Strip(s)) == Strip(s)
  {
    StrippedIsFixpoint(Strip(s));
  }

  /** Python `s.split(sep)` for a one-character separator: always at least one
      piece, and no piece contains the separator. */
  function SplitOn(s: string, sep: char): (r: seq<string>)
    ensures |r| >= 1
    ensures forall i | 0 <= i < |r| :: sep !in r[i]
  {
    if s == [] then [""]
    else
      var rest := SplitOn(s[1..], sep);
      if s[0] == sep then [""] + rest
      else [[s[0]] + rest[0]] + rest[1..]
  }

  /** A string without the separator is a single piece. */
  lemma {:induction false} SplitOnFree(a: string, sep: char)
    requires sep !in a
    ensures SplitOn(a, sep) == [a]
  {
    if a != [] {
      SplitOnFree(a[1..], sep);
      assert [a[0]] + a[1..] == a;
    }
  }

  /** A piece without the separator, then the separator, split off first. */
  lemma {:induction false} SplitOnAt(a: string, b: string, sep: char)
    requires sep !in a
    ensures SplitOn(a + [sep] + b, sep) == [a] + SplitOn(b, sep)
  {
    var s := a + [sep] + b;
    if a == [] {
      assert s[1..] == b;
    } else {
      assert s[1..] == a[1..] + [sep] + b;
      SplitOnAt(a[1..], b, sep);
      assert [a[0]] + a[1..] == a;
    }
  }

  /** `sep.join(xs)` */
  function Join(sep: string, xs: seq<string>): (r: string)
  {
    if xs == [] then ""
    else if |xs| == 1 then xs[0]
    else xs[0] + sep + Join(sep, xs[1..])
  }

  /** `"".join(xs)` */
  function Concat(xs: seq<string>): (r: string)
  {
    if xs == [] then "" else xs[0] + Concat(xs[1..])
  }

  /** `[x for x in xs if x]`, or `filter(None, xs)`: the non-empty strings,
      in order. */
  function NonEmpty(xs: seq<string>): (r: seq<string>)
    ensures |r| <= |xs|
    ensures forall i | 0 <= i < |r| :: r[i] != []
  {
    if xs == [] then [] else if xs[0] == [] then NonEmpty(xs[1..]) else [xs[0]] + NonEmpty(xs[1..])
  }

  /** Without empty strings, nothing is dropped. */
  lemma {:induction false} NonEmptyKeepsAll(xs: seq<string>)
    requires forall i | 0 <= i < |xs| :: xs[i] != []
    ensures NonEmpty(xs) == xs
  {
    if xs != [] {
      NonEmptyKeepsAll(xs[1..]);
    }
  }

  /** Every kept string is one of the inputs. */
  lemma {:induction false} NonEmptyIn(xs: seq<string>)
    ensures forall c | c in NonEmpty(xs) :: c in xs
  {
    if xs != [] {
      NonEmptyIn(xs[1..]);
      forall c | c in NonEmpty(xs)
        ensures c in xs
      {
        if c != xs[0] {
          assert c in NonEmpty(xs[1..]);
          assert c in xs[1..];
        }
      }
    }
  }

  lemma {:induction false} NonEmptyAppend(a: seq<string>, b: seq<string>)
    ensures NonEmpty(a + b) == NonEmpty(a) + NonEmpty(b)
  {
    if a != [] {
      assert (a + b)[1..] == a[1..] + b;
      NonEmptyAppend(a[1..], b);
    } else {
      assert a + b == b;
    }
  }

  /** Dropping empty strings does not change their concatenation. */
  lemma {:induction false} ConcatNonEmpty(xs: seq<string>)
    ensures Concat(NonEmpty(xs)) == Concat(xs)
  {
    if xs != [] {
      ConcatNonEmpty(xs[1..]);
    }
  }

  /** Joining two parts with `sep`, leaving out an empty side. */
  function JoinTwo(sep: string, x: string, y: string): string {
    if x == [] then y else if y == [] then x else x + sep + y
  }

  /** Splitting a join of pieces without the separator gives the pieces
      back. */
  lemma {:induction false} SplitOnJoin(xs: seq<string>, sep: char)
    requires xs != []
    requires forall i | 0 <= i < |xs| :: sep !in xs[i]
    ensures SplitOn(Join([sep], xs), sep) == xs
  {
    if |xs| == 1 {
      SplitOnFree(xs[0], sep);
    } else {
      SplitOnJoin(xs[1..], sep);
      SplitOnAt(xs[0], Join([sep], xs[1..]), sep);
      assert [xs[0]] + xs[1..] == xs;
    }
  }

  /** A string strips to nothing exactly when it is all whitespace. */
  lemma StripEmptyIff(s: string)
    ensures Strip(s) == [] <==> forall i | 0 <= i < |s| :: IsSpace(s[i])
  {
    var l := TrimLeft(s);
    if l != [] {
      TrimLeftSuffix(s);
      assert IsSpace(l[0]) == IsSpace(s[|s| - |l|]);
    }
  }

  /** Joining non-empty strings gives "" only for no strings. */
  lemma {:induction false} JoinEmptyIff(sep: string, xs: seq<string>)
    requires forall i | 0 <= i < |xs| :: xs[i] != []
    ensures Join(sep, xs) == [] <==> xs == []
  {
    if |xs| > 1 {
      assert |Join(sep, xs)| >= |xs[0]|;
    }
  }

  /** Joining a concatenation of lists of non-empty strings. */
  lemma {:induction false} JoinConcat(sep: string, a: seq<string>, b: seq<string>)
    requires forall i | 0 <= i < |a| :: a[i] != []
    requires forall i | 0 <= i < |b| :: b[i] != []
    ensures Join(sep, a + b) == JoinTwo(sep, Join(sep, a), Join(sep, b))
    decreases |a|
  {
    JoinEmptyIff(sep, a);
    JoinEmptyIff(sep, b);
    if a == [] {
      assert a + b == b;
    } else if b == [] {
      assert a + b == a;
    } else if |a| == 1 {
      assert (a + b)[1..] == b;
    } else {
      assert (a + b)[1..] == a[1..] + b;
      JoinConcat(sep, a[1..], b);
      JoinEmptyIff(sep, a[1..]);
    }
  }

  /** `str.splitlines()` with line feed as the only line break: "" gives no
      line, and a final line feed does not open an empty last line. */
  function SplitLines(s: string): (r: seq<string>)
    ensures s == [] <==> r == []
    ensures forall i | 0 <= i < |r| :: '\n' !in r[i]
  {
    if s == [] then []
    else if s[|s| - 1] == '\n' then SplitOn(s[..|s| - 1], '\n')
    else SplitOn(s, '\n')
  }

  /** Splitting and re-joining on the same separator gives the input back. */
  lemma {:induction false} JoinSplitOn(s: string, sep: char)
    ensures Join([sep], SplitOn(s, sep)) == s
  {
    if s != [] {
      var rest := SplitOn(s[1..], sep);
      JoinSplitOn(s[1..], sep);
      if s[0] == sep {
        assert SplitOn(s, sep) == [""] + rest;
        assert Join([sep], [""] + rest) == "" + [sep] + Join([sep], rest);
        assert s == [s[0]] + s[1..];
      } else {
        var r := SplitOn(s, sep);
        assert r == [[s[0]] + rest[0]] + rest[1..];
        if |rest| == 1 {
          assert r == [[s[0]] + rest[0]];
          assert s == [s[0]] + s[1..];
        } else {
          assert r[1..] == rest[1..];
          assert Join([sep], r) == [s[0]] + rest[0] + [sep] + Join([sep], rest[1..]);
          assert Join([sep], rest) == rest[0] + [sep] + Join([sep], rest[1..]);
          assert s == [s[0]] + s[1..];
        }
      }
    }
  }

  /** Joining the lines of a text with line feeds gives back the text, less
      one final line feed. */
  lemma JoinSplitLines(s: string)
    ensures Join("\n", SplitLines(s)) == if s != [] && s[|s| - 1] == '\n' then s[..|s| - 1] else s
  {
    if s != [] {
      if s[|s| - 1] == '\n' {
        JoinSplitOn(s[..|s| - 1], '\n');
      } else {
        JoinSplitOn(s, '\n');
      }
    }
  }

  lemma {:induction false} JoinAppend(sep: string, xs: seq<string>, x: string)
    requires xs != []
    ensures Join(sep, xs + [x]) == Join(sep, xs) + sep + x
  {
    if |xs| == 1 {
      assert xs + [x] == [xs[0], x];
    } else {
      assert (xs + [x])[1..] == xs[1..] + [x];
      JoinAppend(sep, xs[1..], x);
    }
  }

  lemma {:induction false} ConcatConcat(a: seq<string>, b: seq<string>)
    ensures Concat(a + b) == Concat(a) + Concat(b)
  {
    if a == [] {
      assert a + b == b;
    } else {
      assert (a + b)[1..] == a[1..] + b;
      ConcatConcat(a[1..], b);
    }
  }

  lemma {:induction false} ConcatAppend(xs: seq<string>, x: string)
    ensures Concat(xs + [x]) == Concat(xs) + x
  {
    if xs == [] {
      assert [] + [x] == [x];
    } else {
      assert (xs + [x])[1..] == xs[1..] + [x];
      ConcatAppend(xs[1..], x);
    }
  }

  /** The last piece of a non-empty list comes last in its concatenation. */
  lemma ConcatDropLast(xs: seq<string>)
    requires xs != []
    ensures Concat(xs) == Concat(xs[..|xs| - 1]) + xs[|xs| - 1]
  {
    assert xs == xs[..|xs| - 1] + [xs[|xs| - 1]];
    ConcatAppend(xs[..|xs| - 1], xs[|xs| - 1]);
  }

  /** Replacing an element of the left part of a concatenation. */
  lemma UpdateAppend<T>(a: seq<T>, b: seq<T>, i: nat, v: T)
    requires i < |a|
    ensures (a + b)[i := v] == a[i := v] + b
  {
  }

  function DigitChar(d: nat): (c: char)
    requires d < 10
    ensures '0' <= c <= '9'
  {
    "0123456789"[d]
  }

  function DigitValue(c: char): nat
    requires '0' <= c <= '9'
  {
    (c as int - '0' as int) as nat
  }

  /** `str(n)` for a natural number: its decimal digits, no leading zero. */
  function NatToString(n: nat): (r: string)
    ensures |r| >= 1
    ensures forall i | 0 <= i < |r| :: '0' <= r[i] <= '9'
  {
    if n < 10 then [DigitChar(n)] else NatToString(n / 10) + [DigitChar(n % 10)]
  }

  /** `int(s)` for a string of decimal digits. */
  function ParseDigits(s: string): nat
    requires forall i | 0 <= i < |s| :: '0' <= s[i] <= '9'
  {
    if s == [] then 0 else 10 * ParseDigits(s[..|s| - 1]) + DigitValue(s[|s| - 1])
  }

  /** Reading back the decimal form of `n` gives `n`. */
  lemma {:induction false} ParseNatToString(n: nat)
    ensures ParseDigits(NatToString(n)) == n
  {
    if n < 10 {
      assert DigitValue(DigitChar(n)) == n;
    } else {
      var s := NatToString(n);
      assert s[..|s| - 1] == NatToString(n / 10);
      ParseNatToString(n / 10);
      assert DigitValue(DigitChar(n % 10)) == n % 10;
    }
  }

  /** Distinct numbers have distinct decimal forms. */
  lemma NatToStringInjective(m: nat, n: nat)
    requires NatToString(m) == NatToString(n)
    ensures m == n
  {
    ParseNatToString(m);
    ParseNatToString(n);
  }

  /** A hexadecimal digit, lower case, as `repr` writes it. */
  function HexDigit(d: nat): (c: char)
    requires d < 16
    ensures c in "0123456789abcdef"
  {
    "0123456789abcdef"[d]
  }

  /** The value of a hexadecimal digit; 0 for any other character. */
  function HexValue(c: char): (d: nat)
    ensures d < 16
  {
    if '0' <= c <= '9' then c as int - '0' as int
    else if 'a' <= c <= 'f' then c as int - 'a' as int + 10
    else 0
  }

  lemma HexValueOfDigit(d: nat)
    requires d < 16
    ensures HexValue(HexDigit(d)) == d
  {
  }

  /** The quote `repr` puts around `s`: a double quote when `s` holds a
      single quote and no double quote, a single quote otherwise. */
  function QuoteFor(s: string): (q: char)
    ensures q == '\'' || q == '"'
    ensures q == '"' <==> '\'' in s && '"' !in s
  {
    if '\'' in s && '"' !in s then '"' else '\''
  }

  /** How `repr` writes one ASCII character inside the quote `q`: the
      backslash and the quote are escaped, tab, line feed and carriage return
      by letter, other control characters as `\xhh`. Every other character
      is written as itself. */
  function EscapeChar(c: char, q: char): (r: string)
    ensures 1 <= |r| <= 4
    ensures r == [c] <==> c != '\\' && c != q && ' ' <= c && c != '\U{007F}'
  {
    if c == '\\' then "\\\\"
    else if c == q then ['\\', q]
    else if c == '\t' then "\\t"
    else if c == '\n' then "\\n"
    else if c == '\r' then "\\r"
    else if c < ' ' || c == '\U{007F}' then ['\\', 'x', HexDigit(c as int / 16), HexDigit(c as int % 16)]
    else [c]
  }

  /** The characters of `s` as `repr` writes them inside the quote `q`. */
  function Escaped(s: string, q: char): (r: string)
    ensures |r| >= |s|
  {
    if s == [] then [] else EscapeChar(s[0], q) + Escaped(s[1..], q)
  }

  /** `repr(s)` for a string of ASCII characters. */
  function PyRepr(s: string): (r: string)
    ensures |r| >= |s| + 2
    ensures r[0] == QuoteFor(s) && r[|r| - 1] == QuoteFor(s)
  {
    [QuoteFor(s)] + Escaped(s, QuoteFor(s)) + [QuoteFor(s)]
  }

  /** Reading escapes back, as Python's parser reads a string literal. */
  function Unescaped(t: string): string {
    if t == [] then []
    else if t[0] == '\\' && |t| >= 2 then
      if t[1] == 't' then "\t" + Unescaped(t[2..])
      else if t[1] == 'n' then "\n" + Unescaped(t[2..])
      else if t[1] == 'r' then "\r" + Unescaped(t[2..])
      else if t[1] == 'x' && |t| >= 4 then
        [(HexValue(t[2]) * 16 + HexValue(t[3])) as char] + Unescaped(t[4..])
      else [t[1]] + Unescaped(t[2..])
    else [t[0]] + Unescaped(t[1..])
  }

  /** One escaped character reads back as itself. */
  lemma UnescapeStep(c: char, q: char, rest: string)
    requires q == '\'' || q == '"'
    ensures Unescaped(EscapeChar(c, q) + rest) == [c] + Unescaped(rest)
  {
    var e := EscapeChar(c, q);
    if |e| == 4 {
      HexValueOfDigit(c as int / 16);
      HexValueOfDigit(c as int % 16);
      assert (e + rest)[4..] == rest;
    } else if |e| == 2 {
      assert (e + rest)[2..] == rest;
    } else {
      assert (e + rest)[1..] == rest;
    }
  }

  /** The escaped characters read back as the string. */
  lemma {:induction false} UnescapeEscaped(s: string, q: char)
    requires q == '\'' || q == '"'
    ensures Unescaped(Escaped(s, q)) == s
  {
    if s != [] {
      UnescapeStep(s[0], q, Escaped(s[1..], q));
      UnescapeEscaped(s[1..], q);
    }
  }

  /** `repr` round-trips: the text between the quotes reads back as `s`. */
  lemma ReprRoundTrip(s: string)
    ensures var r := PyRepr(s); Unescaped(r[1..|r| - 1]) == s
  {
    var r := PyRepr(s);
    assert r[1..|r| - 1] == Escaped(s, QuoteFor(s));
    UnescapeEscaped(s, QuoteFor(s));
  }

  /** A string with no quote, backslash or control character is written
      between single quotes as it is. */
  lemma {:induction false} EscapedPlain(s: string, q: char)
    requires forall i | 0 <= i < |s| :: s[i] != '\\' && s[i] != q && ' ' <= s[i] && s[i] != '\U{007F}'
    ensures Escaped(s, q) == s
  {
    if s != [] {
      EscapedPlain(s[1..], q);
    }
  }

  lemma ReprPlain(s: string)
    requires forall i | 0 <= i < |s| :: s[i] != '\\' && s[i] != '\'' && s[i] != '"' && ' ' <= s[i] && s[i] != '\U{007F}'
    ensures PyRepr(s) == "'" + s + "'"
  {
    EscapedPlain(s, '\'');
  }

  /** A string that needs no escape inside its quote is written as itself
      between two such quotes. */
  lemma ReprUnescaped(s: string, q: char)
    requires QuoteFor(s) == q && Escaped(s, q) == s
    ensures PyRepr(s) == [q] + s + [q]
  {
  }

  lemma ApostropheQuote(s: string)
    requires s == "x/it's.txt"
    ensures QuoteFor(s) == '"'
  {
    assert s[4] == '\'';
  }

  lemma ApostropheUnescaped(s: string)
    requires s == "x/it's.txt"
    ensures Escaped(s, '"') == s
  {
    EscapedPlain(s, '"');
  }

  /** A name holding a single quote and no double quote is written between
      double quotes, the single quote unescaped. */
  lemma ReprApostrophe(s: string)
    requires s == "x/it's.txt"
    ensures PyRepr(s) == "\"" + s + "\""
  {
    ApostropheQuote(s);
    ApostropheUnescaped(s);
    ReprUnescaped(s, '"');
  }
}
