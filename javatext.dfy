/**
 * The pieces of java.lang.String and java.lang.Integer behaviour that the
 * controller relies on: `trim`, `startsWith`, `split("\\s+")`,
 * `Integer.parseInt`, `Integer.toString` and joining with a separator.
 */
module JavaText {
  import opened Wrappers

  /** The characters the regular expression `\s` matches: space, \t, \n, \u000B, \f, \r. */
  predicate IsSpace(c: char) {
    c == ' ' || c == '\t' || c == '\n' || c == '\r' || c as int == 0x0B || c as int == 0x0C
  }

  /** No character of `w` is a separator for `split("\\s+")`. */
  predicate NoSpace(w: string) {
    forall i :: 0 <= i < |w| ==> !IsSpace(w[i])
  }

  predicate StartsWith(s: string, prefix: string) {
    |prefix| <= |s| && s[..|prefix|] == prefix
  }

  // ---------------------------------------------------------------------
  // String.trim: drops every leading and trailing character at or below U+0020.

  function TrimStart(s: string): (r: string)
    ensures |r| <= |s| && r == s[|s| - |r|..]
    ensures r == [] || r[0] > ' '
    ensures forall i :: 0 <= i < |s| - |r| ==> s[i] <= ' '
    decreases |s|
  {
    if s != [] && s[0] <= ' ' then TrimStart(s[1..]) else s
  }

  function TrimEnd(s: string): (r: string)
    ensures |r| <= |s| && r == s[..|r|]
    ensures r == [] || r[|r| - 1] > ' '
    ensures forall i :: |r| <= i < |s| ==> s[i] <= ' '
    decreases |s|
  {
    if s != [] && s[|s| - 1] <= ' ' then TrimEnd(s[..|s| - 1]) else s
  }

  function Trim(s: string): (r: string)
    ensures r == [] || (r[0] > ' ' && r[|r| - 1] > ' ')
    ensures (forall i :: 0 <= i < |s| ==> s[i] <= ' ') <==> r == []
  {
    var t := TrimStart(s);
    var r := TrimEnd(t);
    assert r == [] ==> t == [];
    assert r != [] ==> s[|s| - |t|] == t[0] == r[0];
    r
  }

  /** A string that starts and ends with a visible character is its own trim. */
  lemma TrimVisible(s: string)
    requires s != [] && s[0] > ' ' && s[|s| - 1] > ' '
    ensures Trim(s) == s
  {
  }

  // ---------------------------------------------------------------------
  // String.split("\\s+") on a string that does not start with a separator:
  // the maximal runs of non-separator characters, in order.

  /** The length of the run of non-separator characters that `s` starts with. */
  function WordEnd(s: string): (n: nat)
    ensures n <= |s| && (n < |s| ==> IsSpace(s[n]))
    ensures forall i :: 0 <= i < n ==> !IsSpace(s[i])
    decreases |s|
  {
    if s == [] || IsSpace(s[0]) then 0 else 1 + WordEnd(s[1..])
  }

  /** The length of the run of separators that `s` starts with. */
  function SpaceEnd(s: string): (n: nat)
    ensures n <= |s| && (n < |s| ==> !IsSpace(s[n]))
    ensures forall i :: 0 <= i < n ==> IsSpace(s[i])
    decreases |s|
  {
    if s == [] || !IsSpace(s[0]) then 0 else 1 + SpaceEnd(s[1..])
  }

  /** The words of a string that starts with a word (or is empty): split it off, skip separators, repeat. */
  function WordsAfter(t: string): (ws: seq<string>)
    requires t == [] || !IsSpace(t[0])
    ensures forall i :: 0 <= i < |ws| ==> ws[i] != [] && NoSpace(ws[i])
    decreases |t|
  {
    if t == [] then []
    else
      var n := WordEnd(t);
      var rest := t[n..];
      [t[..n]] + WordsAfter(rest[SpaceEnd(rest)..])
  }

  function Words(s: string): (ws: seq<string>)
    ensures forall i :: 0 <= i < |ws| ==> ws[i] != [] && NoSpace(ws[i])
  {
    WordsAfter(s[SpaceEnd(s)..])
  }

  /** A string that starts with a non-separator splits into at least one word, which it starts with. */
  lemma WordsFirst(s: string)
    requires s != [] && !IsSpace(s[0])
    ensures Words(s) != [] && StartsWith(s, Words(s)[0])
  {
    assert SpaceEnd(s) == 0;
    assert s[0..] == s;
  }

  /** Separators are at or below U+0020, so a trimmed line never starts with one. */
  lemma SpaceIsTrimmed(c: char)
    ensures IsSpace(c) ==> c <= ' '
  {
  }

  // ---------------------------------------------------------------------
  // Joining with a one-character separator (Collectors.joining("\t")).

  function JoinWith(ws: seq<string>, sep: char): (r: string)
    ensures ws == [] ==> r == []
    ensures ws != [] ==> StartsWith(r, ws[0])
    decreases |ws|
  {
    if ws == [] then []
    else if |ws| == 1 then ws[0]
    else ws[0] + [sep] + JoinWith(ws[1..], sep)
  }

  lemma {:induction false} JoinWithSnoc(ws: seq<string>, w: string, sep: char)
    requires ws != []
    ensures JoinWith(ws + [w], sep) == JoinWith(ws, sep) + [sep] + w
    decreases |ws|
  {
    if |ws| == 1 {
      assert ws + [w] == [ws[0], w];
      assert (ws + [w])[1..] == [w];
    } else {
      assert (ws + [w])[1..] == ws[1..] + [w];
      JoinWithSnoc(ws[1..], w, sep);
    }
  }

  /** The last character of a join of non-empty words is the last character of the last word. */
  lemma {:induction false} JoinWithLast(ws: seq<string>, sep: char)
    requires ws != [] && ws[|ws| - 1] != []
    ensures var r := JoinWith(ws, sep); r != [] && r[|r| - 1] == ws[|ws| - 1][|ws[|ws| - 1]| - 1]
    decreases |ws|
  {
    if |ws| > 1 {
      JoinWithLast(ws[1..], sep);
    }
  }

  lemma WordEndOfWord(w: string, rest: string)
    requires NoSpace(w)
    requires rest == [] || IsSpace(rest[0])
    ensures WordEnd(w + rest) == |w|
    decreases |w|
  {
    if w != [] {
      assert (w + rest)[1..] == w[1..] + rest;
      WordEndOfWord(w[1..], rest);
    }
  }

  /** A word followed by a separator (or by nothing) is split off as the first word. */
  lemma WordsOfWordThen(w: string, rest: string)
    requires w != [] && NoSpace(w)
    requires rest == [] || IsSpace(rest[0])
    ensures Words(w + rest) == [w] + Words(rest)
  {
    var s := w + rest;
    assert SpaceEnd(s) == 0;
    assert s[0..] == s;
    WordEndOfWord(w, rest);
    assert s[..|w|] == w;
    assert s[|w|..] == rest;
  }

  /** A leading separator does not change the split. */
  lemma WordsSkipSpace(s: string)
    requires s != [] && IsSpace(s[0])
    ensures Words(s) == Words(s[1..])
  {
    var k := SpaceEnd(s[1..]);
    assert SpaceEnd(s) == 1 + k;
    assert s[1 + k..] == s[1..][k..];
  }

  /** Splitting a join of separator-free words on whitespace gives the words back. */
  lemma {:induction false} WordsOfJoin(ws: seq<string>, sep: char)
    requires IsSpace(sep)
    requires forall i :: 0 <= i < |ws| ==> ws[i] != [] && NoSpace(ws[i])
    ensures Words(JoinWith(ws, sep)) == ws
    decreases |ws|
  {
    if |ws| == 1 {
      WordsOfWord(ws[0]);
    } else if |ws| > 1 {
      var rest := ws[1..];
      WordsOfJoin(rest, sep);
      WordsOfJoinStep(ws[0], rest, sep);
      assert ws == [ws[0]] + rest;
    }
  }

  lemma WordsOfWord(w: string)
    requires w != [] && NoSpace(w)
    ensures Words(w) == [w]
  {
    WordsOfWordThen(w, []);
    assert w + [] == w;
  }

  lemma WordsOfJoinStep(w: string, ws: seq<string>, sep: char)
    requires IsSpace(sep) && w != [] && NoSpace(w) && ws != []
    ensures Words(JoinWith([w] + ws, sep)) == [w] + Words(JoinWith(ws, sep))
  {
    var rest := JoinWith(ws, sep);
    assert ([w] + ws)[1..] == ws;
    assert JoinWith([w] + ws, sep) == w + ([sep] + rest);
    WordsOfWordThen(w, [sep] + rest);
    assert ([sep] + rest)[1..] == rest;
    WordsSkipSpace([sep] + rest);
  }

  // ---------------------------------------------------------------------
  // Counting one character, for statements about line structure.

  function Count(s: string, c: char): (n: nat)
    ensures n <= |s|
    decreases |s|
  {
    if s == [] then 0 else (if s[0] == c then 1 else 0) + Count(s[1..], c)
  }

  lemma {:induction false} CountAppend(a: string, b: string, c: char)
    ensures Count(a + b, c) == Count(a, c) + Count(b, c)
    decreases |a|
  {
    if a == [] {
      assert a + b == b;
    } else {
      assert (a + b)[1..] == a[1..] + b;
      CountAppend(a[1..], b, c);
    }
  }

  lemma {:induction false} CountAbsent(s: string, c: char)
    requires c !in s
    ensures Count(s, c) == 0
    decreases |s|
  {
    if s != [] {
      assert s[0] != c;
      CountAbsent(s[1..], c);
    }
  }

  lemma {:induction false} JoinWithAvoids(ws: seq<string>, sep: char, c: char)
    requires sep != c
    requires forall i :: 0 <= i < |ws| ==> c !in ws[i]
    ensures c !in JoinWith(ws, sep)
    decreases |ws|
  {
    if |ws| > 1 {
      JoinWithAvoids(ws[1..], sep, c);
    }
  }

  // ---------------------------------------------------------------------
  // Integer.parseInt and Integer.toString on 32-bit int.

  const MinInt: int := -0x8000_0000
  const MaxInt: int := 0x7fff_ffff

  predicate IsInt32(n: int) { MinInt <= n <= MaxInt }

  predicate IsDigit(c: char) { '0' <= c <= '9' }

  predicate AllDigits(s: string) {
    forall i :: 0 <= i < |s| ==> IsDigit(s[i])
  }

  /** The value of a string of decimal digits, most significant first; None if any character is not a digit. */
  function DigitsValue(s: string): Option<nat>
    decreases |s|
  {
    if s == [] then Some(0)
    else
      match DigitsValue(s[..|s| - 1])
      case None => None
      case Some(v) => if IsDigit(s[|s| - 1]) then Some(10 * v + (s[|s| - 1] as int - '0' as int)) else None
  }

  lemma {:induction false} DigitsValueAccepts(s: string)
    ensures DigitsValue(s).Some? <==> AllDigits(s)
    decreases |s|
  {
    if s != [] {
      DigitsValueAccepts(s[..|s| - 1]);
    }
  }

  /** An optional sign followed by one or more ASCII digits, whose value fits in an int. */
  function ParseInt(s: string): (r: Option<int>)
    ensures r.Some? ==> IsInt32(r.value)
  {
    if s == [] then None
    else
      var digits := if s[0] == '-' || s[0] == '+' then s[1..] else s;
      if digits == [] then None
      else
        match DigitsValue(digits)
        case None => None
        case Some(d) =>
          var v: int := if s[0] == '-' then -(d as int) else d;
          if IsInt32(v) then Some(v) else None
  }

  /** Integer.parseInt accepts exactly a sign or a digit, followed by digits only. */
  lemma ParseIntAccepts(s: string)
    ensures ParseInt(s).Some? ==> s != [] && (s[0] == '-' || s[0] == '+' || IsDigit(s[0])) && AllDigits(s[1..])
  {
    if s != [] {
      var digits := if s[0] == '-' || s[0] == '+' then s[1..] else s;
      DigitsValueAccepts(digits);
      if ParseInt(s).Some? && digits == s {
        assert s[0] == digits[0];
      }
    }
  }

  function DigitChar(d: nat): (c: char)
    requires d < 10
    ensures IsDigit(c) && c as int - '0' as int == d
  {
    ('0' as int + d) as char
  }

  function NatToString(n: nat): (s: string)
    ensures s != [] && AllDigits(s)
    decreases n
  {
    if n < 10 then [DigitChar(n)] else NatToString(n / 10) + [DigitChar(n % 10)]
  }

  function IntToString(n: int): string {
    if n < 0 then "-" + NatToString(-n) else NatToString(n)
  }

  /** Integer.toString writes a non-empty run of digits and signs: no separator, no newline. */
  lemma IntToStringVisible(n: int)
    ensures var s := IntToString(n); s != [] && NoSpace(s) && '\n' !in s && s[|s| - 1] > ' '
  {
    var s := IntToString(n);
    assert forall i :: 0 <= i < |s| ==> IsDigit(s[i]) || s[i] == '-';
  }

  lemma {:induction false} DigitsValueOfNat(n: nat)
    ensures DigitsValue(NatToString(n)) == Some(n)
    decreases n
  {
    if n >= 10 {
      var s := NatToString(n);
      assert s[..|s| - 1] == NatToString(n / 10);
      DigitsValueOfNat(n / 10);
    }
  }

  /** Integer.parseInt reads back what Integer.toString writes, for every int. */
  lemma ParseIntOfString(n: int)
    requires IsInt32(n)
    ensures ParseInt(IntToString(n)) == Some(n)
  {
    if n < 0 {
      var s := "-" + NatToString(-n);
      assert s[1..] == NatToString(-n);
      DigitsValueOfNat(-n);
    } else {
      var s := NatToString(n);
      assert IsDigit(s[0]);
      DigitsValueOfNat(n);
    }
  }
}
