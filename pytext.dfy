/**
 * The Python 2 string and number built-ins the observation table relies on:
 * `str.split()`, `str.split(sep)`, iteration over the lines of a file,
 * `int()` and `float()` on decimal text, and the `%d` / `%.1f` conversions.
 * Numbers written with one decimal are held as whole tenths.
 */
module PyText {
  import opened Wrappers

  /** The characters `str.split()` treats as separators (Python 2 byte strings). */
  predicate IsSpace(c: char) {
    c == ' ' || c == '\t' || c == '\n' || c == '\r' || c as int == 11 || c as int == 12
  }

  predicate NoSpace(s: string) {
    forall i :: 0 <= i < |s| ==> !IsSpace(s[i])
  }

  predicate AllSpace(s: string) {
    forall i :: 0 <= i < |s| ==> IsSpace(s[i])
  }

  // ---------------------------------------------------------------------------
  // str.split() -- whitespace runs separate tokens, leading/trailing runs vanish
  // ---------------------------------------------------------------------------

  /** Length of the word that starts `s`: the longest prefix free of whitespace. */
  function WordLen(s: string): (n: nat)
    ensures n <= |s|
    ensures forall i :: 0 <= i < n ==> !IsSpace(s[i])
    ensures n < |s| ==> IsSpace(s[n])
  {
    if |s| == 0 || IsSpace(s[0]) then 0 else 1 + WordLen(s[1..])
  }

  /** `s.split()`: the maximal whitespace-free words of `s`, in order. */
  function Split(s: string): (r: seq<string>)
    ensures forall i :: 0 <= i < |r| ==> r[i] != [] && NoSpace(r[i])
    decreases |s|
  {
    if |s| == 0 then []
    else if IsSpace(s[0]) then Split(s[1..])
    else
      var n := WordLen(s);
      [s[..n]] + Split(s[n..])
  }

  lemma {:induction false} SplitSkipsSpace(ws: string, rest: string)
    requires AllSpace(ws)
    ensures Split(ws + rest) == Split(rest)
    decreases |ws|
  {
    if ws != [] {
      assert IsSpace((ws + rest)[0]) by { assert (ws + rest)[0] == ws[0]; }
      assert Split(ws + rest) == Split((ws + rest)[1..]);
      assert (ws + rest)[1..] == ws[1..] + rest;
      SplitSkipsSpace(ws[1..], rest);
    } else {
      assert ws + rest == rest;
    }
  }

  lemma {:induction false} WordLenOfWord(w: string, rest: string)
    requires NoSpace(w)
    requires rest == [] || IsSpace(rest[0])
    ensures WordLen(w + rest) == |w|
    decreases |w|
  {
    if w != [] {
      assert (w + rest)[1..] == w[1..] + rest;
      WordLenOfWord(w[1..], rest);
    } else {
      assert w + rest == rest;
    }
  }

  /** A word followed by whitespace (or nothing) is split off as one token. */
  lemma SplitWord(w: string, rest: string)
    requires w != [] && NoSpace(w)
    requires rest == [] || IsSpace(rest[0])
    ensures Split(w + rest) == [w] + Split(rest)
  {
    WordLenOfWord(w, rest);
    assert (w + rest)[..|w|] == w;
    assert (w + rest)[|w|..] == rest;
  }

  /** `fields[0] + seps[0] + fields[1] + ... + fields[n]`. */
  function Joined(fields: seq<string>, seps: seq<string>): string
    requires |fields| == |seps| + 1
    decreases |seps|
  {
    if |seps| == 0 then fields[0] else fields[0] + seps[0] + Joined(fields[1..], seps[1..])
  }

  /** Splitting words joined by whitespace separators gives back exactly those words. */
  lemma {:induction false} SplitJoined(fields: seq<string>, seps: seq<string>, tail: string)
    requires |fields| == |seps| + 1
    requires forall i :: 0 <= i < |fields| ==> fields[i] != [] && NoSpace(fields[i])
    requires forall i :: 0 <= i < |seps| ==> seps[i] != [] && AllSpace(seps[i])
    requires AllSpace(tail)
    ensures Split(Joined(fields, seps) + tail) == fields
    decreases |seps|
  {
    if |seps| == 0 {
      SplitWord(fields[0], tail);
      SplitSkipsSpace(tail, []);
      assert tail + [] == tail;
    } else {
      var rest := Joined(fields[1..], seps[1..]) + tail;
      assert Joined(fields, seps) + tail == fields[0] + (seps[0] + rest);
      SplitWord(fields[0], seps[0] + rest);
      SplitSkipsSpace(seps[0], rest);
      SplitJoined(fields[1..], seps[1..], tail);
    }
  }

  /** A joined line of whitespace-free words and tab separators holds no newline. */
  lemma {:induction false} JoinedHasNoNewline(fields: seq<string>, seps: seq<string>)
    requires |fields| == |seps| + 1
    requires forall i :: 0 <= i < |fields| ==> NoSpace(fields[i])
    requires forall i :: 0 <= i < |seps| ==> forall j :: 0 <= j < |seps[i]| ==> seps[i][j] == '\t'
    ensures '\n' !in Joined(fields, seps)
    decreases |seps|
  {
    if |seps| > 0 {
      JoinedHasNoNewline(fields[1..], seps[1..]);
      assert '\n' !in fields[0];
      assert '\n' !in seps[0];
    } else {
      assert '\n' !in fields[0];
    }
  }

  // ---------------------------------------------------------------------------
  // str.split(sep) and the lines of a file
  // ---------------------------------------------------------------------------

  /** Position of the first `c` in `s`. */
  function IndexOf(s: string, c: char): (k: nat)
    requires c in s
    ensures k < |s| && s[k] == c && c !in s[..k]
  {
    if s[0] == c then 0 else 1 + IndexOf(s[1..], c)
  }

  lemma IndexOfAfter(a: string, c: char, b: string)
    requires c !in a
    ensures c in a + [c] + b && IndexOf(a + [c] + b, c) == |a|
  {
    var s := a + [c] + b;
    assert s[|a|] == c;
    assert s[..|a|] == a;
  }

  /** `s.split(c)`: the pieces between occurrences of `c`; never empty, "" gives [""]. */
  function SplitOn(s: string, c: char): (r: seq<string>)
    ensures |r| >= 1
    ensures forall i :: 0 <= i < |r| ==> c !in r[i]
    decreases |s|
  {
    if c !in s then [s]
    else
      var k := IndexOf(s, c);
      [s[..k]] + SplitOn(s[k + 1..], c)
  }

  lemma SplitOnFirst(a: string, c: char, b: string)
    requires c !in a
    ensures SplitOn(a + [c] + b, c) == [a] + SplitOn(b, c)
  {
    var s := a + [c] + b;
    IndexOfAfter(a, c, b);
    assert s[..|a|] == a;
    assert s[|a| + 1..] == b;
  }

  /** Splitting at a separator inserted between two texts splits each of them. */
  lemma {:induction false} SplitOnConcat(x: string, c: char, y: string)
    ensures SplitOn(x + [c] + y, c) == SplitOn(x, c) + SplitOn(y, c)
    decreases |x|
  {
    if c !in x {
      SplitOnFirst(x, c, y);
    } else {
      var k := IndexOf(x, c);
      var x1, x2 := x[..k], x[k + 1..];
      assert x == x1 + [c] + x2;
      calc {
        SplitOn(x + [c] + y, c);
        { assert x + [c] + y == x1 + [c] + (x2 + [c] + y); }
        SplitOn(x1 + [c] + (x2 + [c] + y), c);
        { SplitOnFirst(x1, c, x2 + [c] + y); }
        [x1] + SplitOn(x2 + [c] + y, c);
        { SplitOnConcat(x2, c, y); }
        [x1] + (SplitOn(x2, c) + SplitOn(y, c));
        { SplitOnFirst(x1, c, x2); }
        SplitOn(x, c) + SplitOn(y, c);
      }
    }
  }

  /** Iterating over a file: every line keeps its '\n'; a last unterminated line is kept too. */
  function Lines(s: string): (r: seq<string>)
    ensures forall i :: 0 <= i < |r| ==> r[i] != []
    decreases |s|
  {
    if s == [] then []
    else if '\n' !in s then [s]
    else
      var k := IndexOf(s, '\n');
      [s[..k + 1]] + Lines(s[k + 1..])
  }

  lemma LinesFirst(a: string, rest: string)
    requires '\n' !in a
    ensures Lines(a + "\n" + rest) == [a + "\n"] + Lines(rest)
  {
    var s := a + "\n" + rest;
    IndexOfAfter(a, '\n', rest);
    assert s[..|a| + 1] == a + "\n";
    assert s[|a| + 1..] == rest;
  }

  // ---------------------------------------------------------------------------
  // Decimal numbers
  // ---------------------------------------------------------------------------

  predicate IsDigit(c: char) { '0' <= c <= '9' }

  /** A non-empty run of decimal digits, as `int()` accepts in this model. */
  predicate IsDigits(s: string) {
    |s| > 0 && forall i :: 0 <= i < |s| ==> IsDigit(s[i])
  }

  function DigitValue(c: char): nat
    requires IsDigit(c)
  {
    c as int - '0' as int
  }

  function DigitChar(d: nat): (c: char)
    requires d < 10
    ensures IsDigit(c) && DigitValue(c) == d
  {
    ('0' as int + d) as char
  }

  function DigitsValue(s: string): nat
    requires forall i :: 0 <= i < |s| ==> IsDigit(s[i])
    decreases |s|
  {
    if |s| == 0 then 0 else 10 * DigitsValue(s[..|s| - 1]) + DigitValue(s[|s| - 1])
  }

  /** `int(s)`: succeeds exactly on a non-empty run of decimal digits. */
  function ParseNat(s: string): (r: Option<nat>)
    ensures r.Some? <==> IsDigits(s)
  {
    if IsDigits(s) then Some(DigitsValue(s)) else None
  }

  /** `"%d" % n` for a non-negative n: shortest decimal representation. */
  function ShowNat(n: nat): string
  {
    if n < 10 then [DigitChar(n)] else ShowNat(n / 10) + [DigitChar(n % 10)]
  }

  /** `int()` reads back what `%d` writes. */
  lemma {:induction false} ShowNatRoundTrip(n: nat)
    ensures IsDigits(ShowNat(n))
    ensures ParseNat(ShowNat(n)) == Some(n)
  {
    var s := ShowNat(n);
    if n < 10 {
      assert s[..0] == [];
      assert DigitsValue(s) == 10 * DigitsValue(s[..0]) + DigitValue(s[0]);
    } else {
      ShowNatRoundTrip(n / 10);
      assert s[..|s| - 1] == ShowNat(n / 10);
    }
  }

  /** `"%d" % i`. */
  function ShowInt(i: int): string
  {
    if i < 0 then "-" + ShowNat(-i) else ShowNat(i)
  }

  /** `"%.1f" % x` for a value of `t` tenths. */
  function FormatTenths(t: int): string
    decreases if t < 0 then 1 else 0
  {
    if t < 0 then "-" + FormatTenths(-t)
    else ShowNat(t / 10) + "." + [DigitChar(t % 10)]
  }

  /** `float(s)` on "D+" or "D+.D", as a number of tenths. */
  function ParseTenths(s: string): (r: Option<nat>)
    ensures r.Some? ==> (IsDigits(s) || (|s| >= 3 && s[|s| - 2] == '.'))
  {
    if |s| >= 2 && s[|s| - 2] == '.' then
      if IsDigits(s[..|s| - 2]) && IsDigit(s[|s| - 1])
      then Some(10 * DigitsValue(s[..|s| - 2]) + DigitValue(s[|s| - 1]))
      else None
    else if IsDigits(s) then Some(10 * DigitsValue(s))
    else None
  }

  /** `float()` reads back what `%.1f` writes, for non-negative values. */
  lemma FormatTenthsRoundTrip(t: nat)
    ensures ParseTenths(FormatTenths(t)) == Some(t)
    ensures NoSpace(FormatTenths(t)) && FormatTenths(t) != []
  {
    var s := FormatTenths(t);
    ShowNatRoundTrip(t / 10);
    assert s[..|s| - 2] == ShowNat(t / 10);
    assert s[|s| - 2] == '.';
  }

  lemma ShowNatNoSpace(n: nat)
    ensures NoSpace(ShowNat(n)) && ShowNat(n) != []
  {
    ShowNatRoundTrip(n);
  }

  // ---------------------------------------------------------------------------
  // cmp() on sequences: lexicographic, a proper prefix comes first
  // ---------------------------------------------------------------------------

  /** `cmp(a, b)` for two sequences whose elements are compared by `cmp`. */
  function Lex<T>(a: seq<T>, b: seq<T>, cmp: (T, T) -> int): int
    decreases |a|
  {
    if |a| == 0 then (if |b| == 0 then 0 else -1)
    else if |b| == 0 then 1
    else if cmp(a[0], b[0]) != 0 then cmp(a[0], b[0])
    else Lex(a[1..], b[1..], cmp)
  }

  /** `cmp` is a three-way comparison of a strict total order. */
  ghost predicate IsComparison<T(!new)>(cmp: (T, T) -> int) {
    && (forall x, y :: -1 <= cmp(x, y) <= 1)
    && (forall x, y :: cmp(x, y) == 0 <==> x == y)
    && (forall x, y :: cmp(x, y) == -cmp(y, x))
    && (forall x, y, z :: cmp(x, y) < 0 && cmp(y, z) < 0 ==> cmp(x, z) < 0)
  }

  lemma {:induction false} LexZero<T(!new)>(a: seq<T>, b: seq<T>, cmp: (T, T) -> int)
    requires IsComparison(cmp)
    ensures -1 <= Lex(a, b, cmp) <= 1
    ensures Lex(a, b, cmp) == 0 <==> a == b
    ensures Lex(a, b, cmp) == -Lex(b, a, cmp)
    decreases |a|
  {
    if |a| > 0 && |b| > 0 {
      LexZero(a[1..], b[1..], cmp);
      if a[0] == b[0] && a[1..] == b[1..] {
        assert a == [a[0]] + a[1..] && b == [b[0]] + b[1..];
      }
    }
  }

  lemma {:induction false} LexTransitive<T(!new)>(a: seq<T>, b: seq<T>, c: seq<T>, cmp: (T, T) -> int)
    requires IsComparison(cmp)
    requires Lex(a, b, cmp) < 0 && Lex(b, c, cmp) < 0
    ensures Lex(a, c, cmp) < 0
    decreases |a|
  {
    if |a| > 0 && cmp(a[0], b[0]) == 0 && cmp(b[0], c[0]) == 0 {
      LexTransitive(a[1..], b[1..], c[1..], cmp);
    }
  }

  /** The comparison of sequences inherits the properties of the element comparison. */
  lemma LexIsComparison<T(!new)>(cmp: (T, T) -> int)
    requires IsComparison(cmp)
    ensures IsComparison((a: seq<T>, b: seq<T>) => Lex(a, b, cmp))
  {
    forall a: seq<T>, b: seq<T> ensures -1 <= Lex(a, b, cmp) <= 1 && (Lex(a, b, cmp) == 0 <==> a == b)
      && Lex(a, b, cmp) == -Lex(b, a, cmp) {
      LexZero(a, b, cmp);
    }
    forall a: seq<T>, b: seq<T>, c: seq<T> | Lex(a, b, cmp) < 0 && Lex(b, c, cmp) < 0
      ensures Lex(a, c, cmp) < 0 {
      LexTransitive(a, b, c, cmp);
    }
  }

  /** `a` comes before `b` exactly when they agree up to some position where `a`'s element is smaller
      (or `a` is a proper prefix of `b`). */
  lemma {:induction false} LexLessAt<T(!new)>(a: seq<T>, b: seq<T>, cmp: (T, T) -> int)
    requires IsComparison(cmp)
    requires |a| == |b|
    ensures Lex(a, b, cmp) < 0 <==> exists i :: 0 <= i < |a| && a[..i] == b[..i] && cmp(a[i], b[i]) < 0
    decreases |a|
  {
    if |a| > 0 {
      LexLessAt(a[1..], b[1..], cmp);
      if Lex(a, b, cmp) < 0 {
        if cmp(a[0], b[0]) != 0 {
          assert a[..0] == b[..0];
        } else {
          var i :| 0 <= i < |a| - 1 && a[1..][..i] == b[1..][..i] && cmp(a[1..][i], b[1..][i]) < 0;
          assert a[..i + 1] == [a[0]] + a[1..][..i];
          assert b[..i + 1] == [b[0]] + b[1..][..i];
          assert a[..i + 1] == b[..i + 1];
          assert cmp(a[i + 1], b[i + 1]) < 0;
        }
      } else {
        forall i | 0 <= i < |a| && a[..i] == b[..i] ensures cmp(a[i], b[i]) >= 0 {
          if i > 0 {
            assert a[0] == a[..i][0];
            assert a[1..][..i - 1] == a[..i][1..] && b[1..][..i - 1] == b[..i][1..];
            assert a[1..][i - 1] == a[i] && b[1..][i - 1] == b[i];
          }
        }
      }
    }
  }
}
