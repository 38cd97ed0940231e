/** The JavaScript string operations the bookmark code relies on:
    `trim`, `split` on a one-character separator, `join`, `indexOf`/`includes`,
    `replace` of the first occurrence of a string pattern, and the decimal
    conversions `Number.prototype.toString` and `parseInt`. */
module Strings {
  import opened Results

  // ---------------------------------------------------------------- trim

  /** The code points ECMAScript calls WhiteSpace or LineTerminator: what `trim` strips. */
  predicate IsWhitespace(c: char) {
    || c == '\t' || c == '\n' || c == '\U{000B}' || c == '\U{000C}' || c == '\r'
    || c == ' ' || c == '\U{00A0}' || c == '\U{1680}'
    || ('\U{2000}' <= c <= '\U{200A}')
    || c == '\U{2028}' || c == '\U{2029}' || c == '\U{202F}' || c == '\U{205F}'
    || c == '\U{3000}' || c == '\U{FEFF}'
  }

  predicate AllWhitespace(s: string) {
    forall i :: 0 <= i < |s| ==> IsWhitespace(s[i])
  }

  /** Neither end of `s` is whitespace. */
  predicate IsTrimmed(s: string) {
    s == [] || (!IsWhitespace(s[0]) && !IsWhitespace(s[|s| - 1]))
  }

  /** `s.trimStart()`: the suffix left after dropping leading whitespace. */
  function TrimStart(s: string): (r: string)
    ensures |r| <= |s| && r == s[|s| - |r|..]
    ensures forall i :: 0 <= i < |s| - |r| ==> IsWhitespace(s[i])
    ensures r == [] || !IsWhitespace(r[0])
    decreases |s|
  {
    if s != [] && IsWhitespace(s[0]) then TrimStart(s[1..]) else s
  }

  /** `s.trimEnd()`: the prefix left after dropping trailing whitespace. */
  function TrimEnd(s: string): (r: string)
    ensures |r| <= |s| && r == s[..|r|]
    ensures forall i :: |r| <= i < |s| ==> IsWhitespace(s[i])
    ensures r == [] || !IsWhitespace(r[|r| - 1])
    decreases |s|
  {
    if s != [] && IsWhitespace(s[|s| - 1]) then TrimEnd(s[..|s| - 1]) else s
  }

  /** `s.trim()` */
  function Trim(s: string): (r: string)
    ensures IsTrimmed(r)
    ensures |r| <= |s|
    ensures forall c :: c in r ==> c in s
    ensures r == [] <==> AllWhitespace(s)
  {
    var t := TrimStart(s);
    var r := TrimEnd(t);
    assert r != [] ==> r[0] == t[0];
    if AllWhitespace(s) then
      TrimStartOfWhitespace(s);
      r
    else
      TrimStartOfText(s);
      TrimEndOfText(t);
      r
  }

  lemma {:induction false} TrimStartOfWhitespace(s: string)
    requires AllWhitespace(s)
    ensures TrimStart(s) == []
    decreases |s|
  {
    if s != [] {
      TrimStartOfWhitespace(s[1..]);
    }
  }

  lemma {:induction false} TrimStartOfText(s: string)
    requires !AllWhitespace(s)
    ensures TrimStart(s) != []
    decreases |s|
  {
    if IsWhitespace(s[0]) {
      TrimStartOfText(s[1..]);
    }
  }

  lemma {:induction false} TrimEndOfText(s: string)
    requires s != [] && !IsWhitespace(s[0])
    ensures TrimEnd(s) != []
    decreases |s|
  {
    if |s| > 1 && IsWhitespace(s[|s| - 1]) {
      TrimEndOfText(s[..|s| - 1]);
    }
  }

  /** A string that is already trimmed is left alone. */
  lemma TrimOfTrimmed(s: string)
    requires IsTrimmed(s)
    ensures Trim(s) == s
  {
  }

  lemma {:induction false} TrimStartSkipsWhitespace(w: string, s: string)
    requires AllWhitespace(w)
    ensures TrimStart(w + s) == TrimStart(s)
    decreases |w|
  {
    if w != [] {
      assert (w + s)[0] == w[0];
      assert (w + s)[1..] == w[1..] + s;
      assert TrimStart(w + s) == TrimStart(w[1..] + s);
      TrimStartSkipsWhitespace(w[1..], s);
    } else {
      assert w + s == s;
    }
  }

  lemma {:induction false} TrimEndSkipsWhitespace(s: string, w: string)
    requires AllWhitespace(w)
    ensures TrimEnd(s + w) == TrimEnd(s)
    decreases |w|
  {
    if w != [] {
      assert (s + w)[|s + w| - 1] == w[|w| - 1];
      assert (s + w)[..|s + w| - 1] == s + w[..|w| - 1];
      assert TrimEnd(s + w) == TrimEnd(s + w[..|w| - 1]);
      TrimEndSkipsWhitespace(s, w[..|w| - 1]);
    } else {
      assert s + w == s;
    }
  }

  /** Trimming text that does not start with whitespace commutes with appending more text. */
  lemma {:induction false} TrimStartAppend(s: string, w: string)
    requires !AllWhitespace(s)
    ensures TrimStart(s + w) == TrimStart(s) + w
    decreases |s|
  {
    if IsWhitespace(s[0]) {
      assert (s + w)[1..] == s[1..] + w;
      TrimStartAppend(s[1..], w);
    }
  }

  /** Whitespace around a string never changes what `trim` returns: together
      with TrimOfTrimmed this pins `Trim` down completely. */
  lemma TrimIgnoresPadding(w1: string, s: string, w2: string)
    requires AllWhitespace(w1) && AllWhitespace(w2)
    ensures Trim(w1 + s + w2) == Trim(s)
  {
    assert w1 + s + w2 == w1 + (s + w2);
    TrimStartSkipsWhitespace(w1, s + w2);
    if AllWhitespace(s) {
      assert AllWhitespace(s + w2);
    } else {
      TrimStartAppend(s, w2);
      TrimEndSkipsWhitespace(TrimStart(s), w2);
    }
  }

  /** `xs.map(x => x.trim())` */
  function TrimAll(xs: seq<string>): (r: seq<string>)
    ensures |r| == |xs|
    ensures forall i :: 0 <= i < |xs| ==> r[i] == Trim(xs[i])
  {
    if xs == [] then [] else [Trim(xs[0])] + TrimAll(xs[1..])
  }

  lemma {:induction false} TrimAllConcat(a: seq<string>, b: seq<string>)
    ensures TrimAll(a + b) == TrimAll(a) + TrimAll(b)
  {
    if a == [] {
      assert a + b == b;
    } else {
      assert (a + b)[0] == a[0] && (a + b)[1..] == a[1..] + b;
      TrimAllConcat(a[1..], b);
    }
  }

  /** `xs.filter(x => x.length > 0)` */
  function DropEmpty(xs: seq<string>): (r: seq<string>)
    ensures |r| <= |xs|
    ensures forall i :: 0 <= i < |r| ==> r[i] != ""
    ensures forall x :: x in r <==> x in xs && x != ""
  {
    if xs == [] then []
    else if xs[0] == "" then DropEmpty(xs[1..])
    else [xs[0]] + DropEmpty(xs[1..])
  }

  /** Filtering works element by element, so it keeps the input order. */
  lemma {:induction false} DropEmptyConcat(a: seq<string>, b: seq<string>)
    ensures DropEmpty(a + b) == DropEmpty(a) + DropEmpty(b)
  {
    if a != [] {
      assert (a + b)[1..] == a[1..] + b;
      DropEmptyConcat(a[1..], b);
    } else {
      assert a + b == b;
    }
  }

  /** Filtering a list with no empty string keeps all of it. */
  lemma {:induction false} DropEmptyOfNonEmpty(xs: seq<string>)
    requires forall i :: 0 <= i < |xs| ==> xs[i] != ""
    ensures DropEmpty(xs) == xs
  {
    if xs != [] {
      DropEmptyOfNonEmpty(xs[1..]);
    }
  }

  // ---------------------------------------------------------------- split / join

  function CountChar(s: string, c: char): nat {
    if s == [] then 0 else (if s[0] == c then 1 else 0) + CountChar(s[1..], c)
  }

  /** `s.split(sep)` for a one-character separator: the maximal separator-free
      pieces between separators, empty pieces included. */
  function Split(s: string, sep: char): (parts: seq<string>)
    ensures |parts| == CountChar(s, sep) + 1
    ensures forall i :: 0 <= i < |parts| ==> sep !in parts[i]
    decreases |s|
  {
    if s == [] then [""]
    else
      var rest := Split(s[1..], sep);
      if s[0] == sep then [""] + rest
      else [[s[0]] + rest[0]] + rest[1..]
  }

  /** Trimming never brings in a character. */
  lemma TrimKeepsAbsent(s: string, c: char)
    requires c !in s
    ensures c !in Trim(s)
  {
  }

  /** `parts.join(sep)` */
  function Join(parts: seq<string>, sep: string): (joined: string)
    ensures |joined| == TotalLength(parts) + if parts == [] then 0 else (|parts| - 1) * |sep|
    ensures |parts| >= 1 ==> |parts[0]| <= |joined| && joined[..|parts[0]|] == parts[0]
  {
    if |parts| == 0 then ""
    else if |parts| == 1 then parts[0]
    else
      var rest := Join(parts[1..], sep);
      assert (|parts| - 1) * |sep| == (|parts[1..]| - 1) * |sep| + |sep|;
      parts[0] + sep + rest
  }

  /** The combined length of the pieces. */
  function TotalLength(parts: seq<string>): nat {
    if parts == [] then 0 else |parts[0]| + TotalLength(parts[1..])
  }

  /** Joining the pieces of a split with the separator gives back the string. */
  lemma {:induction false} JoinSplit(s: string, sep: char)
    ensures Join(Split(s, sep), [sep]) == s
    decreases |s|
  {
    if s != [] {
      var rest := Split(s[1..], sep);
      JoinSplit(s[1..], sep);
      if s[0] == sep {
        assert Split(s, sep) == [""] + rest;
        assert ([""] + rest)[1..] == rest;
        assert Join([""] + rest, [sep]) == "" + [sep] + Join(rest, [sep]);
      } else {
        SplitCons(s[0], s[1..], sep);
        assert [s[0]] + s[1..] == s;
        JoinExtendsHead(s[0], rest, [sep]);
      }
    }
  }

  /** A character in front of the first piece comes first in the join. */
  lemma JoinExtendsHead(c: char, parts: seq<string>, sep: string)
    requires |parts| >= 1
    ensures Join([[c] + parts[0]] + parts[1..], sep) == [c] + Join(parts, sep)
  {
    var longer := [[c] + parts[0]] + parts[1..];
    assert longer[1..] == parts[1..];
    if |parts| > 1 {
      assert Join(longer, sep) == [c] + parts[0] + sep + Join(parts[1..], sep);
    }
  }

  /** A string without the separator splits into itself alone. */
  lemma {:induction false} SplitWithoutSeparator(s: string, sep: char)
    requires sep !in s
    ensures Split(s, sep) == [s]
    decreases |s|
  {
    if s != [] {
      SplitWithoutSeparator(s[1..], sep);
      assert s == [s[0]] + s[1..];
    }
  }

  /** Splitting at a separator splits the two sides independently. */
  lemma {:induction false} SplitConcat(a: string, b: string, sep: char)
    ensures Split(a + [sep] + b, sep) == Split(a, sep) + Split(b, sep)
    decreases |a|
  {
    if a == [] {
      assert a + [sep] + b == [sep] + b;
      assert ([sep] + b)[1..] == b;
    } else {
      var s := a + [sep] + b;
      assert s[0] == a[0] && s[1..] == a[1..] + [sep] + b;
      SplitConcat(a[1..], b, sep);
    }
  }

  /** Splitting a join of separator-free pieces gives back the pieces. */
  lemma {:induction false} SplitJoin(parts: seq<string>, sep: char)
    requires |parts| >= 1
    requires forall i :: 0 <= i < |parts| ==> sep !in parts[i]
    ensures Split(Join(parts, [sep]), sep) == parts
  {
    if |parts| == 1 {
      SplitWithoutSeparator(parts[0], sep);
    } else {
      SplitJoin(parts[1..], sep);
      SplitConcat(parts[0], Join(parts[1..], [sep]), sep);
      SplitWithoutSeparator(parts[0], sep);
      assert parts == [parts[0]] + parts[1..];
    }
  }

  /** A leading character other than the separator only extends the first piece. */
  lemma SplitCons(c: char, s: string, sep: char)
    requires c != sep
    ensures var rest := Split(s, sep);
      Split([c] + s, sep) == [[c] + rest[0]] + rest[1..]
  {
    assert ([c] + s)[1..] == s;
  }

  /** Joining with the separator followed by whitespace, then splitting on the
      separator and trimming each piece, gives back trimmed separator-free pieces. */
  lemma {:induction false} TrimSplitJoinPadded(parts: seq<string>, sep: char, pad: string)
    requires |parts| >= 1
    requires AllWhitespace(pad) && sep !in pad
    requires forall i :: 0 <= i < |parts| ==> sep !in parts[i] && IsTrimmed(parts[i])
    ensures TrimAll(Split(Join(parts, [sep] + pad), sep)) == parts
  {
    if |parts| == 1 {
      SplitWithoutSeparator(parts[0], sep);
      TrimOfTrimmed(parts[0]);
    } else {
      assert parts == [parts[0]] + parts[1..];
      TrimSplitJoinPadded(parts[1..], sep, pad);
      TrimSplitJoinPaddedStep(parts, sep, pad);
    }
  }

  /** The first piece of a padded join comes back on its own. */
  lemma TrimSplitJoinPaddedStep(parts: seq<string>, sep: char, pad: string)
    requires |parts| >= 2
    requires AllWhitespace(pad) && sep !in pad
    requires sep !in parts[0] && IsTrimmed(parts[0])
    ensures TrimAll(Split(Join(parts, [sep] + pad), sep))
            == [parts[0]] + TrimAll(Split(Join(parts[1..], [sep] + pad), sep))
  {
    var tail := Join(parts[1..], [sep] + pad);
    assert Join(parts, [sep] + pad) == parts[0] + [sep] + (pad + tail);
    SplitJoinStep(parts[0], pad, tail, sep);
  }

  lemma SplitJoinStep(head: string, pad: string, tail: string, sep: char)
    requires sep !in head && IsTrimmed(head)
    requires AllWhitespace(pad) && sep !in pad
    ensures TrimAll(Split(head + [sep] + (pad + tail), sep)) == [head] + TrimAll(Split(tail, sep))
  {
    var x := Split(pad + tail, sep);
    calc {
      TrimAll(Split(head + [sep] + (pad + tail), sep));
      == { SplitConcat(head, pad + tail, sep); SplitWithoutSeparator(head, sep); }
      TrimAll([head] + x);
      == { TrimAllConcat([head], x); }
      TrimAll([head]) + TrimAll(x);
      == { TrimOfTrimmed(head); assert TrimAll([head]) == [Trim(head)]; }
      [head] + TrimAll(x);
      == { PaddedSplitTrims(pad, tail, sep); }
      [head] + TrimAll(Split(tail, sep));
    }
  }

  lemma {:induction false} PaddedSplitTrims(pad: string, s: string, sep: char)
    requires AllWhitespace(pad)
    requires sep !in pad
    ensures TrimAll(Split(pad + s, sep)) == TrimAll(Split(s, sep))
    decreases |pad|
  {
    if pad == [] {
      assert pad + s == s;
    } else {
      assert pad + s == [pad[0]] + (pad[1..] + s);
      WhitespaceConsTrims(pad[0], pad[1..] + s, sep);
      PaddedSplitTrims(pad[1..], s, sep);
    }
  }

  lemma WhitespaceConsTrims(c: char, x: string, sep: char)
    requires IsWhitespace(c) && c != sep
    ensures TrimAll(Split([c] + x, sep)) == TrimAll(Split(x, sep))
  {
    var rest := Split(x, sep);
    SplitCons(c, x, sep);
    TrimIgnoresPadding([c], rest[0], "");
    assert [c] + rest[0] + "" == [c] + rest[0];
    TrimAllPointwise([[c] + rest[0]] + rest[1..], rest);
  }

  lemma TrimAllPointwise(a: seq<string>, b: seq<string>)
    requires |a| == |b|
    requires forall i :: 0 <= i < |a| ==> Trim(a[i]) == Trim(b[i])
    ensures TrimAll(a) == TrimAll(b)
  {
  }

  // ---------------------------------------------------------------- search / replace

  /** `pat` occurs in `s` starting at index `i`. */
  predicate OccursAt(s: string, pat: string, i: nat) {
    i + |pat| <= |s| && s[i..i + |pat|] == pat
  }

  lemma OccursAtShift(s: string, pat: string, j: nat)
    requires s != []
    ensures OccursAt(s, pat, j + 1) <==> OccursAt(s[1..], pat, j)
  {
    if j + 1 + |pat| <= |s| {
      assert s[1..][j..j + |pat|] == s[j + 1..j + 1 + |pat|];
    }
  }

  /** `s.indexOf(pat)`: the first index where `pat` occurs, None for -1. */
  function IndexOf(s: string, pat: string): (r: Option<nat>)
    ensures r.Some? ==> OccursAt(s, pat, r.value)
    ensures r.Some? ==> forall j: nat :: j < r.value ==> !OccursAt(s, pat, j)
    ensures r.None? ==> forall j: nat :: !OccursAt(s, pat, j)
    decreases |s|
  {
    if |s| < |pat| then None
    else if s[..|pat|] == pat then Some(0)
    else
      match IndexOf(s[1..], pat)
      case None =>
        assert forall j: nat :: !OccursAt(s, pat, j) by {
          forall j: nat ensures !OccursAt(s, pat, j) {
            if j > 0 {
              OccursAtShift(s, pat, j - 1);
            }
          }
        }
        None
      case Some(k) =>
        OccursAtShift(s, pat, k);
        assert forall j: nat :: 0 < j < k + 1 ==> !OccursAt(s, pat, j) by {
          forall j: nat | 0 < j < k + 1 ensures !OccursAt(s, pat, j) {
            OccursAtShift(s, pat, j - 1);
          }
        }
        Some(k + 1)
  }

  /** `s.includes(pat)` */
  predicate Contains(s: string, pat: string): (found: bool)
    ensures found <==> exists j: nat :: OccursAt(s, pat, j)
  {
    IndexOf(s, pat).Some?
  }

  /** `s.replace(pat, '')` with a string pattern: only the first occurrence goes. */
  function RemoveFirst(s: string, pat: string): (r: string)
    ensures |r| <= |s|
    ensures !Contains(s, pat) ==> r == s
    ensures Contains(s, pat) ==> |r| == |s| - |pat|
  {
    match IndexOf(s, pat)
    case None => s
    case Some(i) => s[..i] + s[i + |pat|..]
  }

  /** The occurrence removed is the first one, wherever it stands, and the text
      on both sides of it is kept. */
  lemma RemoveFirstOccurrence(a: string, pat: string, b: string)
    requires forall j: nat :: j < |a| ==> !OccursAt(a + pat + b, pat, j)
    ensures RemoveFirst(a + pat + b, pat) == a + b
  {
    var s := a + pat + b;
    assert s[|a|..|a| + |pat|] == pat;
    assert OccursAt(s, pat, |a|);
    var k := IndexOf(s, pat);
    assert k == Some(|a|);
    assert s[..|a|] == a && s[|a| + |pat|..] == b;
  }

  // ---------------------------------------------------------------- decimal numbers

  predicate IsDigits(s: string) {
    forall i :: 0 <= i < |s| ==> '0' <= s[i] <= '9'
  }

  function DigitChar(d: nat): (c: char)
    requires d < 10
    ensures '0' <= c <= '9'
  {
    ('0' as int + d) as char
  }

  /** `n.toString()` for a non-negative integer: its canonical decimal digits. */
  function NatToString(n: nat): (s: string)
    ensures |s| >= 1 && IsDigits(s)
    ensures |s| > 1 ==> s[0] != '0'
    decreases n
  {
    if n < 10 then [DigitChar(n)] else NatToString(n / 10) + [DigitChar(n % 10)]
  }

  /** `parseInt(s)` on a string made only of decimal digits. */
  function ParseDigits(s: string): (n: nat)
    requires s != [] && IsDigits(s)
    ensures n == 0 <==> forall i :: 0 <= i < |s| ==> s[i] == '0'
    decreases |s|
  {
    var last := s[|s| - 1] as int - '0' as int;
    if |s| == 1 then last
    else
      var init := s[..|s| - 1];
      assert forall i :: 0 <= i < |init| ==> init[i] == s[i];
      10 * ParseDigits(init) + last
  }

  /** Parsing the decimal string of a number gives the number back. */
  lemma {:induction false} ParseNatToString(n: nat)
    ensures ParseDigits(NatToString(n)) == n
    decreases n
  {
    if n >= 10 {
      var s := NatToString(n);
      assert s[..|s| - 1] == NatToString(n / 10);
      ParseNatToString(n / 10);
    }
  }

  /** Distinct numbers have distinct decimal strings. */
  lemma NatToStringInjective(a: nat, b: nat)
    requires NatToString(a) == NatToString(b)
    ensures a == b
  {
    ParseNatToString(a);
    ParseNatToString(b);
  }
}
