/** The JavaScript string built-ins that the cookie parser in
    src/services/api.ts relies on: `split` with a one-character separator,
    `trim`, `substring` and `toUpperCase`. */
module JsString {

  /** The code points `String.prototype.trim` removes: the ECMAScript
      WhiteSpace and LineTerminator characters. */
  predicate IsWhitespace(c: char)
    ensures IsWhitespace(c) ==> c != ';' && c != '=' && !('!' <= c <= '~')
  {
    var n := c as int;
    n == 0x09 || n == 0x0A || n == 0x0B || n == 0x0C || n == 0x0D || n == 0x20 ||
    n == 0xA0 || n == 0x1680 || (0x2000 <= n <= 0x200A) || n == 0x2028 ||
    n == 0x2029 || n == 0x202F || n == 0x205F || n == 0x3000 || n == 0xFEFF
  }

  /** The index of the first `sep` in `s`, or `|s|` when there is none. */
  function FindSep(s: string, sep: char): (i: nat)
    ensures i <= |s|
    ensures i < |s| ==> s[i] == sep
  {
    if s == [] then 0
    else if s[0] == sep then 0
    else 1 + FindSep(s[1..], sep)
  }

  /** No separator comes before the one `FindSep` finds. */
  lemma {:induction false} FindSepFirst(s: string, sep: char, j: nat)
    requires j < FindSep(s, sep)
    ensures s[j] != sep
    decreases j
  {
    if j > 0 {
      FindSepFirst(s[1..], sep, j - 1);
    }
  }

  /** A separator placed after `a` is found only when `a` has none. */
  lemma {:induction false} FindSepAppend(a: string, sep: char, b: string)
    ensures FindSep(a + [sep] + b, sep) == FindSep(a, sep)
    decreases |a|
  {
    if a != [] {
      assert (a + [sep] + b)[0] == a[0];
      assert (a + [sep] + b)[1..] == a[1..] + [sep] + b;
      FindSepAppend(a[1..], sep, b);
    }
  }

  /** `s.split(sep)`: the runs of characters between separators, in order.
      There is always at least one piece (`"".split(";")` is `[""]`), and
      adjacent or trailing separators give empty pieces. */
  function Split(s: string, sep: char): (pieces: seq<string>)
    ensures |pieces| >= 1
    decreases |s|
  {
    var i := FindSep(s, sep);
    if i == |s| then [s] else [s[..i]] + Split(s[i + 1..], sep)
  }

  /** `pieces.join(sep)`, the inverse of `Split`. */
  function Join(pieces: seq<string>, sep: char): string
  {
    if |pieces| == 0 then []
    else if |pieces| == 1 then pieces[0]
    else pieces[0] + [sep] + Join(pieces[1..], sep)
  }

  /** Splitting loses nothing: joining the pieces back gives the input. */
  lemma {:induction false} JoinSplit(s: string, sep: char)
    ensures Join(Split(s, sep), sep) == s
    decreases |s|
  {
    var i := FindSep(s, sep);
    if i < |s| {
      var rest := Split(s[i + 1..], sep);
      JoinSplit(s[i + 1..], sep);
      assert Split(s, sep) == [s[..i]] + rest;
      assert ([s[..i]] + rest)[1..] == rest;
      assert s == s[..i] + [sep] + s[i + 1..];
    }
  }

  /** No piece contains the separator. */
  lemma {:induction false} SplitPiecesLackSeparator(s: string, sep: char)
    ensures forall k :: 0 <= k < |Split(s, sep)| ==> sep !in Split(s, sep)[k]
    decreases |s|
  {
    var i := FindSep(s, sep);
    forall j | 0 <= j < i ensures s[j] != sep {
      FindSepFirst(s, sep, j);
    }
    if i < |s| {
      var rest := Split(s[i + 1..], sep);
      SplitPiecesLackSeparator(s[i + 1..], sep);
      var pieces := [s[..i]] + rest;
      assert Split(s, sep) == pieces;
      forall k | 0 <= k < |pieces| ensures sep !in pieces[k] {
        if k > 0 {
          assert pieces[k] == rest[k - 1];
        }
      }
    }
  }

  /** A separator between two strings separates their pieces:
      `(a + sep + b).split(sep)` is `a.split(sep)` followed by `b.split(sep)`. */
  lemma {:induction false} SplitAround(a: string, sep: char, b: string)
    ensures Split(a + [sep] + b, sep) == Split(a, sep) + Split(b, sep)
    decreases |a|
  {
    var i := FindSep(a, sep);
    if i < |a| {
      SplitAround(a[i + 1..], sep, b);
      SplitAroundStep(a, sep, b);
    } else {
      SplitAroundLast(a, sep, b);
    }
  }

  /** `SplitAround` when `a` has no separator. */
  lemma SplitAroundLast(a: string, sep: char, b: string)
    requires FindSep(a, sep) == |a|
    ensures Split(a + [sep] + b, sep) == Split(a, sep) + Split(b, sep)
  {
    var s := a + [sep] + b;
    FindSepAppend(a, sep, b);
    assert s[..|a|] == a;
    assert s[|a| + 1..] == b;
  }

  /** `SplitAround` for `a` with a separator, given it for the rest of `a`
      after its first separator. */
  lemma SplitAroundStep(a: string, sep: char, b: string)
    requires FindSep(a, sep) < |a|
    requires var i := FindSep(a, sep);
             Split(a[i + 1..] + [sep] + b, sep) == Split(a[i + 1..], sep) + Split(b, sep)
    ensures Split(a + [sep] + b, sep) == Split(a, sep) + Split(b, sep)
  {
    var i := FindSep(a, sep);
    SplitFirstOfLonger(a, sep, b);
    SplitUnfold(a, sep);
    ConsAppend(a[..i], Split(a[i + 1..], sep), Split(b, sep));
  }

  /** One step of `Split` on a string that has a separator. */
  lemma SplitUnfold(s: string, sep: char)
    requires FindSep(s, sep) < |s|
    ensures var i := FindSep(s, sep);
            Split(s, sep) == [s[..i]] + Split(s[i + 1..], sep)
  {
  }

  lemma ConsAppend<T>(x: T, l: seq<T>, r: seq<T>)
    ensures [x] + (l + r) == [x] + l + r
  {
  }

  /** Text appended after the first separator of `a` does not change the
      first piece. */
  lemma SplitFirstOfLonger(a: string, sep: char, b: string)
    requires FindSep(a, sep) < |a|
    ensures var i := FindSep(a, sep);
            Split(a + [sep] + b, sep) == [a[..i]] + Split(a[i + 1..] + [sep] + b, sep)
  {
    var s := a + [sep] + b;
    var i := FindSep(a, sep);
    FindSepAppend(a, sep, b);
    SplitUnfold(s, sep);
    SlicesAround(a, sep, b, i);
    calc {
      Split(s, sep);
      [s[..i]] + Split(s[i + 1..], sep);
      [a[..i]] + Split(a[i + 1..] + [sep] + b, sep);
    }
  }

  lemma SlicesAround(a: string, sep: char, b: string, i: nat)
    requires i < |a|
    ensures (a + [sep] + b)[..i] == a[..i]
    ensures (a + [sep] + b)[i + 1..] == a[i + 1..] + [sep] + b
  {
  }

  /** A string without the separator is a single piece. */
  lemma SplitWithoutSeparator(s: string, sep: char)
    requires sep !in s
    ensures Split(s, sep) == [s]
  {
  }

  /** A separator followed by text without one adds exactly that text as the
      last piece. */
  lemma SplitLastPiece(a: string, sep: char, b: string)
    requires sep !in b
    ensures Split(a + [sep] + b, sep) == Split(a, sep) + [b]
  {
    SplitAround(a, sep, b);
    SplitWithoutSeparator(b, sep);
  }

  /** `s.trimStart()`: drops leading whitespace. */
  function TrimStart(s: string): (t: string)
    ensures |t| <= |s|
    ensures t == [] || !IsWhitespace(t[0])
    ensures s == [] || !IsWhitespace(s[0]) ==> t == s
    decreases |s|
  {
    if s != [] && IsWhitespace(s[0]) then TrimStart(s[1..]) else s
  }

  /** `s.trimEnd()`: drops trailing whitespace, keeping the first character
      of whatever remains. */
  function TrimEnd(s: string): (t: string)
    ensures |t| <= |s|
    ensures t == [] || (!IsWhitespace(t[|t| - 1]) && t[0] == s[0])
    ensures s == [] || !IsWhitespace(s[|s| - 1]) ==> t == s
    decreases |s|
  {
    if s != [] && IsWhitespace(s[|s| - 1]) then TrimEnd(s[..|s| - 1]) else s
  }

  /** `s.trim()`: the middle of `s` that neither starts nor ends with
      whitespace; a string that already has that shape is left unchanged. */
  function Trim(s: string): (t: string)
    ensures t == [] || (!IsWhitespace(t[0]) && !IsWhitespace(t[|t| - 1]))
    ensures s == [] || (!IsWhitespace(s[0]) && !IsWhitespace(s[|s| - 1])) ==> t == s
  {
    TrimEnd(TrimStart(s))
  }

  /** `trimStart` removes only leading whitespace: the result is a suffix of
      the input, and everything before it is whitespace. */
  lemma {:induction false} TrimStartRemovesOnlyWhitespace(s: string)
    ensures var t := TrimStart(s);
            t == s[|s| - |t|..] && forall k :: 0 <= k < |s| - |t| ==> IsWhitespace(s[k])
    decreases |s|
  {
    if s != [] && IsWhitespace(s[0]) {
      TrimStartRemovesOnlyWhitespace(s[1..]);
    }
  }

  /** `trimEnd` removes only trailing whitespace: the result is a prefix of
      the input, and everything after it is whitespace. */
  lemma {:induction false} TrimEndRemovesOnlyWhitespace(s: string)
    ensures var t := TrimEnd(s);
            t == s[..|t|] && forall k :: |t| <= k < |s| ==> IsWhitespace(s[k])
    decreases |s|
  {
    if s != [] && IsWhitespace(s[|s| - 1]) {
      TrimEndRemovesOnlyWhitespace(s[..|s| - 1]);
    }
  }

  /** `trim` removes only whitespace, and only at the ends: the result is the
      slice `s[i..j]` of the input, with whitespace before `i` and from `j`
      on. */
  lemma TrimRemovesOnlyWhitespace(s: string)
    ensures var t := Trim(s);
            var i := |s| - |TrimStart(s)|;
            i + |t| <= |s| && t == s[i..i + |t|] &&
            (forall k :: 0 <= k < i ==> IsWhitespace(s[k])) &&
            (forall k :: i + |t| <= k < |s| ==> IsWhitespace(s[k]))
  {
    TrimStartRemovesOnlyWhitespace(s);
    TrimEndRemovesOnlyWhitespace(TrimStart(s));
    PrefixOfSuffix(s, TrimStart(s), Trim(s));
  }

  /** A prefix `t` of the suffix `m` of `s` is a slice of `s`, and what
      follows `t` in `m` follows it in `s`. */
  lemma PrefixOfSuffix(s: string, m: string, t: string)
    requires |m| <= |s| && m == s[|s| - |m|..]
    requires |t| <= |m| && t == m[..|t|]
    requires forall k :: |t| <= k < |m| ==> IsWhitespace(m[k])
    ensures var i := |s| - |m|;
            i + |t| <= |s| && t == s[i..i + |t|] &&
            forall k :: i + |t| <= k < |s| ==> IsWhitespace(s[k])
  {
    var i := |s| - |m|;
    assert s[i..i + |t|] == m[..|t|];
    forall k | i + |t| <= k < |s| ensures IsWhitespace(s[k]) {
      assert s[k] == m[k - i];
    }
  }

  lemma {:induction false} TrimStartKeepsCharacters(s: string, c: char)
    requires c in TrimStart(s)
    ensures c in s
    decreases |s|
  {
    if s != [] && IsWhitespace(s[0]) {
      TrimStartKeepsCharacters(s[1..], c);
    }
  }

  lemma {:induction false} TrimEndKeepsCharacters(s: string, c: char)
    requires c in TrimEnd(s)
    ensures c in s
    decreases |s|
  {
    if s != [] && IsWhitespace(s[|s| - 1]) {
      TrimEndKeepsCharacters(s[..|s| - 1], c);
    }
  }

  /** `trim` only removes characters: what it returns occurs in its input. */
  lemma TrimKeepsCharacters(s: string, c: char)
    requires c in Trim(s)
    ensures c in s
  {
    TrimEndKeepsCharacters(TrimStart(s), c);
    TrimStartKeepsCharacters(s, c);
  }

  /** Leading whitespace does not change what `trim` returns. */
  lemma TrimLeadingWhitespace(c: char, s: string)
    requires IsWhitespace(c)
    ensures Trim([c] + s) == Trim(s)
  {
    assert ([c] + s)[1..] == s;
  }

  /** `s.substring(0, n)` for `n >= 0`: the first `n` characters, or all of
      `s` when it is shorter. */
  function Take(s: string, n: nat): (t: string)
    ensures |t| == if n <= |s| then n else |s|
    ensures t == s[..|t|]
  {
    if n <= |s| then s[..n] else s
  }

  /** `s.substring(n)` for `n >= 0`: everything from index `n` on, or the
      empty string when `s` is shorter. */
  function Drop(s: string, n: nat): (d: string)
    ensures Take(s, n) + d == s
  {
    if n <= |s| then s[n..] else []
  }

  /** The upper case of an ASCII letter; every other character is kept. */
  function UpperChar(c: char): (u: char)
    ensures !('a' <= u <= 'z')
    ensures 'a' <= c <= 'z' ==> 'A' <= u <= 'Z' && u as int + 32 == c as int
    ensures !('a' <= c <= 'z') ==> u == c
  {
    if 'a' <= c <= 'z' then (c as int - 32) as char else c
  }

  /** `s.toUpperCase()`, character by character. */
  function ToUpperCase(s: string): (u: string)
    ensures |u| == |s|
    ensures forall i :: 0 <= i < |u| ==> !('a' <= u[i] <= 'z')
    ensures forall i :: 0 <= i < |s| && !('a' <= s[i] <= 'z') ==> u[i] == s[i]
  {
    seq(|s|, i requires 0 <= i < |s| => UpperChar(s[i]))
  }

  /** Upper-casing character by character gives `u`. */
  lemma UpperCaseOf(s: string, u: string)
    requires |u| == |s| && forall i :: 0 <= i < |s| ==> u[i] == UpperChar(s[i])
    ensures ToUpperCase(s) == u
  {
  }
}
