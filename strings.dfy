/**
 * The few Python string operations the programs rely on, on ASCII:
 * `s.split(sep)` with a one-character separator, `sep.join(parts)`,
 * whitespace `s.split()`, `int(s)` on a decimal string, and the case
 * mappings of `lower()` and `capitalize()`.
 */
module Strings {
  import opened Wrappers

  /** Characters below 128 that Python's `str.isspace` accepts. */
  predicate IsSpace(c: char)
  {
    c == ' ' || '\t' <= c <= '\r' || '\U{1c}' <= c <= '\U{1f}'
  }

  predicate IsDigit(c: char)
  {
    '0' <= c <= '9'
  }

  /** `sep.join(parts)`: the first part comes first, and for parts without
      the separator it occurs in the result exactly when there are two or
      more parts. */
  function Join(parts: seq<string>, sep: char): (r: string)
    ensures |parts| >= 1 ==> parts[0] <= r
    decreases |parts|
  {
    if |parts| == 0 then ""
    else if |parts| == 1 then parts[0]
    else parts[0] + [sep] + Join(parts[1..], sep)
  }

  lemma JoinCons(p: string, ps: seq<string>, sep: char)
    ensures Join([p] + ps, sep) == if |ps| == 0 then p else p + [sep] + Join(ps, sep)
  {
    assert ([p] + ps)[1..] == ps;
  }

  lemma JoinThree(a: string, b: string, c: string, sep: char)
    ensures Join([a, b, c], sep) == a + [sep] + b + [sep] + c
  {
    assert [a, b, c][1..] == [b, c];
    assert [b, c][1..] == [c];
    assert Join([b, c], sep) == b + [sep] + c;
    assert a + [sep] + (b + [sep] + c) == a + [sep] + b + [sep] + c;
  }

  /** `s.split(sep)`: the pieces between the occurrences of `sep`, which
      join back to `s`. */
  function Split(s: string, sep: char): (parts: seq<string>)
    ensures |parts| >= 1
    ensures forall i :: 0 <= i < |parts| ==> sep !in parts[i]
    ensures Join(parts, sep) == s
    decreases |s|
  {
    if |s| == 0 then [""]
    else
      var rest := Split(s[1..], sep);
      if s[0] == sep then
        JoinCons("", rest, sep);
        assert s == [sep] + s[1..];
        [""] + rest
      else
        SplitConsStep(s[0], rest, sep);
        assert s == [s[0]] + s[1..];
        [[s[0]] + rest[0]] + rest[1..]
  }

  /** Putting a character other than the separator in front of the first
      piece puts it in front of the joined text. */
  lemma SplitConsStep(c: char, rest: seq<string>, sep: char)
    requires |rest| >= 1 && c != sep
    requires forall i :: 0 <= i < |rest| ==> sep !in rest[i]
    ensures forall i :: 0 <= i < |[[c] + rest[0]] + rest[1..]| ==> sep !in ([[c] + rest[0]] + rest[1..])[i]
    ensures Join([[c] + rest[0]] + rest[1..], sep) == [c] + Join(rest, sep)
  {
    JoinCons([c] + rest[0], rest[1..], sep);
    JoinCons(rest[0], rest[1..], sep);
    assert rest == [rest[0]] + rest[1..];
  }

  /** A text without the separator is a single piece. */
  lemma {:induction false} SplitWithoutSeparator(a: string, sep: char)
    requires sep !in a
    ensures Split(a, sep) == [a]
    decreases |a|
  {
    if |a| > 0 {
      SplitWithoutSeparator(a[1..], sep);
      assert [a[0]] + a[1..] == a;
    }
  }

  /** The first piece of `a + [sep] + t` is `a`, when `a` has no separator. */
  lemma {:induction false} SplitAtFirstSeparator(a: string, t: string, sep: char)
    requires sep !in a
    ensures Split(a + [sep] + t, sep) == [a] + Split(t, sep)
    decreases |a|
  {
    var s := a + [sep] + t;
    if |a| == 0 {
      assert s[1..] == t;
    } else {
      assert s[1..] == a[1..] + [sep] + t;
      SplitAtFirstSeparator(a[1..], t, sep);
      assert [a[0]] + a[1..] == a;
    }
  }

  /** Splitting undoes joining, for pieces without the separator. */
  lemma {:induction false} SplitJoin(parts: seq<string>, sep: char)
    requires |parts| >= 1
    requires forall i :: 0 <= i < |parts| ==> sep !in parts[i]
    ensures Split(Join(parts, sep), sep) == parts
    decreases |parts|
  {
    if |parts| == 1 {
      SplitWithoutSeparator(parts[0], sep);
    } else {
      SplitJoin(parts[1..], sep);
      SplitAtFirstSeparator(parts[0], Join(parts[1..], sep), sep);
      assert [parts[0]] + parts[1..] == parts;
    }
  }

  /** The number of leading characters that are not whitespace. */
  function WordLength(s: string): (n: nat)
    ensures n <= |s|
    ensures forall i :: 0 <= i < n ==> !IsSpace(s[i])
    ensures n < |s| ==> IsSpace(s[n])
    decreases |s|
  {
    if |s| == 0 || IsSpace(s[0]) then 0 else 1 + WordLength(s[1..])
  }

  /** A non-empty run of characters that are not whitespace. */
  predicate IsWord(w: string)
  {
    |w| > 0 && forall k :: 0 <= k < |w| ==> !IsSpace(w[k])
  }

  /** Every whitespace character replaced by a blank. */
  function Blanked(s: string): (r: string)
    ensures |r| == |s|
    ensures forall i :: 0 <= i < |s| ==> r[i] == if IsSpace(s[i]) then ' ' else s[i]
  {
    seq(|s|, i requires 0 <= i < |s| => if IsSpace(s[i]) then ' ' else s[i])
  }

  /** The parts that are not empty, in order. */
  function NonEmpty(parts: seq<string>): seq<string>
    decreases |parts|
  {
    if |parts| == 0 then []
    else if parts[0] == "" then NonEmpty(parts[1..])
    else [parts[0]] + NonEmpty(parts[1..])
  }

  /** `s.split()`: the maximal runs of non-whitespace characters, in order.
      None is empty and none holds whitespace, and they are exactly the
      non-empty pieces between the whitespace characters of `s`, which is
      how Python documents `split()` without an argument. */
  function Words(s: string): (ws: seq<string>)
    ensures forall i :: 0 <= i < |ws| ==> IsWord(ws[i])
    ensures ws == NonEmpty(Split(Blanked(s), ' '))
    decreases |s|
  {
    if |s| == 0 then
      assert Blanked(s) == "";
      []
    else if IsSpace(s[0]) then
      PiecesSkipBlank(s);
      Words(s[1..])
    else
      var n := WordLength(s);
      PiecesTakeWord(s, n);
      [s[..n]] + Words(s[n..])
  }

  /** A leading whitespace character only adds an empty piece. */
  lemma PiecesSkipBlank(s: string)
    requires |s| > 0 && IsSpace(s[0])
    ensures NonEmpty(Split(Blanked(s), ' ')) == NonEmpty(Split(Blanked(s[1..]), ' '))
  {
    assert Blanked(s) == "" + [' '] + Blanked(s[1..]);
    SplitAtFirstSeparator("", Blanked(s[1..]), ' ');
    assert ([""] + Split(Blanked(s[1..]), ' '))[1..] == Split(Blanked(s[1..]), ' ');
  }

  /** A leading word is the first non-empty piece. */
  lemma PiecesTakeWord(s: string, n: nat)
    requires n == WordLength(s) && n > 0
    ensures NonEmpty(Split(Blanked(s), ' ')) == [s[..n]] + NonEmpty(Split(Blanked(s[n..]), ' '))
  {
    var w := s[..n];
    WordUnblanked(s, n);
    if n == |s| {
      assert w == s && Blanked(s[n..]) == "";
      SplitWithoutSeparator(w, ' ');
      assert [w][1..] == [];
    } else {
      PiecesWordThenBlank(s, n, w);
    }
  }

  /** The leading word of `s` has no whitespace, so blanking leaves it as it is. */
  lemma WordUnblanked(s: string, n: nat)
    requires n == WordLength(s)
    ensures Blanked(s[..n]) == s[..n] && ' ' !in s[..n]
  {
    var w := s[..n];
    assert forall i :: 0 <= i < n ==> w[i] == s[i];
  }

  /** A leading word followed by whitespace is the first non-empty piece. */
  lemma PiecesWordThenBlank(s: string, n: nat, w: string)
    requires n == WordLength(s) && 0 < n < |s| && w == s[..n]
    requires Blanked(w) == w && ' ' !in w
    ensures NonEmpty(Split(Blanked(s), ' ')) == [w] + NonEmpty(Split(Blanked(s[n..]), ' '))
  {
    var after := s[n + 1..];
    BlankedAtWordEnd(s, n, w, after);
    SplitAtFirstSeparator(w, Blanked(after), ' ');
    assert ([w] + Split(Blanked(after), ' '))[1..] == Split(Blanked(after), ' ');
    PiecesSkipBlank(s[n..]);
  }

  /** Blanking `s` turns the whitespace after its leading word into a blank. */
  lemma BlankedAtWordEnd(s: string, n: nat, w: string, after: string)
    requires 0 < n < |s| && IsSpace(s[n]) && w == s[..n] && after == s[n + 1..]
    requires Blanked(w) == w
    ensures Blanked(s) == w + [' '] + Blanked(after)
    ensures s[n..][1..] == after
  {
    assert s == w + [s[n]] + after;
    BlankedConcat(w + [s[n]], after);
    BlankedConcat(w, [s[n]]);
    assert Blanked([s[n]]) == [' '];
  }

  /** Blanking works character by character, so it distributes over `+`. */
  lemma BlankedConcat(a: string, b: string)
    ensures Blanked(a + b) == Blanked(a) + Blanked(b)
  {
    assert forall i :: 0 <= i < |a| ==> (a + b)[i] == a[i];
    assert forall i :: |a| <= i < |a| + |b| ==> (a + b)[i] == b[i - |a|];
  }

  /** Words separated by single blanks split back into the same words. */
  lemma {:induction false} WordsOfJoin(ws: seq<string>)
    requires forall i :: 0 <= i < |ws| ==> IsWord(ws[i])
    ensures Words(Join(ws, ' ')) == ws
    decreases |ws|
  {
    if |ws| == 1 {
      WordsOfWord(ws[0]);
    } else if |ws| > 1 {
      WordsOfJoin(ws[1..]);
      assert Join(ws, ' ') == ws[0] + [' '] + Join(ws[1..], ' ');
      WordsAfterWord(ws[0], Join(ws[1..], ' '));
      assert [ws[0]] + ws[1..] == ws;
    }
  }

  /** A single word is its own only word. */
  lemma WordsOfWord(w: string)
    requires IsWord(w)
    ensures Words(w) == [w]
  {
    assert WordLength(w) == |w|;
    assert w[..|w|] == w && w[|w|..] == "";
  }

  /** A word followed by a blank is the first word. */
  lemma WordsAfterWord(w: string, t: string)
    requires IsWord(w)
    ensures Words(w + [' '] + t) == [w] + Words(t)
  {
    var s := w + [' '] + t;
    assert WordLength(s) == |w| by {
      assert forall i :: 0 <= i < |w| ==> s[i] == w[i];
      assert IsSpace(s[|w|]);
    }
    assert s[..|w|] == w;
    assert s[|w|..][1..] == t;
  }

  /** The number of leading whitespace characters. */
  function LeadingSpaces(s: string): (n: nat)
    ensures n <= |s|
    ensures forall i :: 0 <= i < n ==> IsSpace(s[i])
    ensures n < |s| ==> !IsSpace(s[n])
    decreases |s|
  {
    if |s| == 0 || !IsSpace(s[0]) then 0 else 1 + LeadingSpaces(s[1..])
  }

  /** The number of trailing whitespace characters. */
  function TrailingSpaces(s: string): (n: nat)
    ensures n <= |s|
    ensures forall i :: |s| - n <= i < |s| ==> IsSpace(s[i])
    ensures n < |s| ==> !IsSpace(s[|s| - n - 1])
    decreases |s|
  {
    if |s| == 0 || !IsSpace(s[|s| - 1]) then 0 else 1 + TrailingSpaces(s[..|s| - 1])
  }

  /** `s.strip()`, on ASCII whitespace: what is left of `s` after all its
      leading whitespace and all its trailing whitespace are removed. */
  function Strip(s: string): (r: string)
    ensures LeadingSpaces(s) + |r| <= |s| && r == s[LeadingSpaces(s)..LeadingSpaces(s) + |r|]
    ensures forall k :: LeadingSpaces(s) + |r| <= k < |s| ==> IsSpace(s[k])
    ensures |r| > 0 ==> !IsSpace(r[0]) && !IsSpace(r[|r| - 1])
  {
    var i := LeadingSpaces(s);
    var t := s[i..];
    var j := |s| - TrailingSpaces(t);
    StripBounds(s, i, t, j);
    s[i..j]
  }

  /** What lies between the leading and the trailing whitespace. */
  lemma StripBounds(s: string, i: nat, t: string, j: int)
    requires i == LeadingSpaces(s) && t == s[i..] && j == |s| - TrailingSpaces(t)
    ensures i <= j <= |s|
    ensures forall k :: j <= k < |s| ==> IsSpace(s[k])
    ensures i < j ==> !IsSpace(s[i]) && !IsSpace(s[j - 1])
  {
    var n := TrailingSpaces(t);
    TrailOfTail(s, i, t, n);
    if i < j {
      assert s[j - 1] == t[|t| - n - 1];
    }
  }

  /** Whitespace at the end of `s[i..]` is whitespace at the end of `s`. */
  lemma TrailOfTail(s: string, i: nat, t: string, n: nat)
    requires i <= |s| && t == s[i..] && n <= |t|
    requires forall k :: |t| - n <= k < |t| ==> IsSpace(t[k])
    ensures forall k :: |s| - n <= k < |s| ==> IsSpace(s[k])
  {
    forall k | |s| - n <= k < |s|
      ensures IsSpace(s[k])
    {
      assert s[k] == t[k - i];
    }
  }

  /** Decimal digits, with single underscores allowed between two digits. */
  predicate ValidDigits(s: string)
  {
    && |s| >= 1
    && forall i {:trigger s[i]} :: 0 <= i < |s| ==>
         IsDigit(s[i]) || (s[i] == '_' && 0 < i < |s| - 1 && IsDigit(s[i - 1]) && IsDigit(s[i + 1]))
  }

  /** The value of the digits of `s`, underscores skipped. */
  function DigitsValue(s: string): nat
    decreases |s|
  {
    if |s| == 0 then 0
    else if s[|s| - 1] == '_' then DigitsValue(s[..|s| - 1])
    else 10 * DigitsValue(s[..|s| - 1]) + (if IsDigit(s[|s| - 1]) then s[|s| - 1] as int - '0' as int else 0)
  }

  /** `int(s)` for a string: surrounding whitespace, an optional sign, then
      digits; None where Python raises ValueError. */
  function ParseInt(s: string): (r: Option<int>)
    ensures r.Some? ==> |Strip(s)| >= 1 && (IsDigit(Strip(s)[0]) || Strip(s)[0] in "+-")
    ensures var t := Strip(s);
      r.Some? <==> ValidDigits(t) || (|t| > 0 && t[0] in "+-" && ValidDigits(t[1..]))
    ensures var t := Strip(s); ValidDigits(t) ==> r == Some(DigitsValue(t))
    ensures var t := Strip(s); |t| > 0 && t[0] == '+' && ValidDigits(t[1..]) ==> r == Some(DigitsValue(t[1..]))
    ensures var t := Strip(s); |t| > 0 && t[0] == '-' && ValidDigits(t[1..]) ==> r.Some? && r.value + DigitsValue(t[1..]) == 0
  {
    var t := Strip(s);
    if |t| > 0 && (t[0] == '+' || t[0] == '-') then
      if ValidDigits(t[1..]) then
        var v: int := DigitsValue(t[1..]);
        Some(if t[0] == '-' then -v else v)
      else None
    else if ValidDigits(t) then
      Some(DigitsValue(t))
    else None
  }

  /** `str(n)` for a natural number. */
  function NatToString(n: nat): (s: string)
    ensures |s| >= 1 && forall i :: 0 <= i < |s| ==> IsDigit(s[i])
    decreases n
  {
    var d := ['0' + (n % 10) as char];
    if n < 10 then d else NatToString(n / 10) + d
  }

  /** `int(str(n)) == n`. */
  lemma {:induction false} ParseIntOfNatToString(n: nat)
    ensures DigitsValue(NatToString(n)) == n
    ensures ParseInt(NatToString(n)) == Some(n)
    decreases n
  {
    var s := NatToString(n);
    if n >= 10 {
      ParseIntOfNatToString(n / 10);
      assert s[..|s| - 1] == NatToString(n / 10);
    }
    StripKeepsDigits(s);
  }

  /** A text that starts and ends with a digit is its own stripped form. */
  lemma StripKeepsDigits(s: string)
    requires |s| >= 1 && IsDigit(s[0]) && IsDigit(s[|s| - 1])
    ensures Strip(s) == s
  {
    assert LeadingSpaces(s) == 0;
    assert s[0..] == s;
    assert TrailingSpaces(s) == 0;
    assert s[0..|s|] == s;
  }

  /** The ASCII case mappings of `lower()` and `upper()`; other characters
      are left as they are. */
  function LowerChar(c: char): (r: char)
    ensures !('A' <= r <= 'Z')
    ensures 'A' <= c <= 'Z' ==> 'a' <= r <= 'z' && r as int - c as int == 'a' as int - 'A' as int
    ensures 'a' <= c <= 'z' || !('A' <= c <= 'Z') ==> r == c
  {
    if 'A' <= c <= 'Z' then (c as int + 32) as char else c
  }

  function UpperChar(c: char): (r: char)
    ensures !('a' <= r <= 'z')
    ensures 'a' <= c <= 'z' ==> 'A' <= r <= 'Z' && c as int - r as int == 'a' as int - 'A' as int
    ensures 'A' <= c <= 'Z' || !('a' <= c <= 'z') ==> r == c
  {
    if 'a' <= c <= 'z' then (c as int - 32) as char else c
  }

  /** The two mappings undo each other on letters of the other case. */
  lemma CaseMappingsInverse(c: char)
    ensures 'A' <= c <= 'Z' ==> UpperChar(LowerChar(c)) == c
    ensures 'a' <= c <= 'z' ==> LowerChar(UpperChar(c)) == c
  {
  }

  function Lower(s: string): (r: string)
    ensures |r| == |s| && forall i :: 0 <= i < |s| ==> r[i] == LowerChar(s[i])
  {
    seq(|s|, i requires 0 <= i < |s| => LowerChar(s[i]))
  }

  /** `s.capitalize()`: the first character upper case, the rest lower case. */
  function Capitalize(s: string): (r: string)
    ensures |r| == |s|
    ensures |s| > 0 ==> r[0] == UpperChar(s[0])
    ensures forall i :: 0 < i < |s| ==> r[i] == LowerChar(s[i])
  {
    if |s| == 0 then s else [UpperChar(s[0])] + Lower(s[1..])
  }
}
