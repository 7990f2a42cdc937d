/** Models of the Go standard-library text functions that the wpa_cli and hostapd_cli
    parsers depend on: strings.Split and bytes.Split on a one-character separator,
    strings.Join, strings.TrimSpace, strings.Fields, strings.Contains,
    bytes.ReplaceAll with an empty replacement and len, the UTF-8 byte count. Text is a
    sequence of Unicode scalar values; invalid UTF-8 is not modelled. */
module GoText {

  /** The characters unicode.IsSpace accepts: the six ASCII spaces, NEL, NO-BREAK SPACE
      and the other characters with the Unicode White_Space property. */
  const GoSpaces: set<char> := {
    ' ', '\t', '\n', '\r', '\U{B}', '\U{C}', '\U{85}', '\U{A0}', '\U{1680}',
    '\U{2000}', '\U{2001}', '\U{2002}', '\U{2003}', '\U{2004}', '\U{2005}',
    '\U{2006}', '\U{2007}', '\U{2008}', '\U{2009}', '\U{200A}',
    '\U{2028}', '\U{2029}', '\U{202F}', '\U{205F}', '\U{3000}'
  }

  /** unicode.IsSpace */
  predicate IsSpace(c: char) {
    c in GoSpaces
  }

  predicate AllSpace(s: string) {
    forall i :: 0 <= i < |s| ==> IsSpace(s[i])
  }

  predicate NoSpace(s: string) {
    forall i :: 0 <= i < |s| ==> !IsSpace(s[i])
  }

  /** A word in the sense of strings.Fields: non-empty and free of white space. */
  predicate IsWord(w: string) {
    w != [] && NoSpace(w)
  }

  // ---------------------------------------------------------------- Split and Join

  /** strings.Split(s, sep) for a one-character separator: the pieces between the
      occurrences of sep, so n occurrences give n + 1 pieces. */
  function Split(s: string, sep: char): (parts: seq<string>)
    ensures |parts| >= 1
    ensures forall i :: 0 <= i < |parts| ==> sep !in parts[i]
  {
    if s == [] then [[]]
    else
      var rest := Split(s[1..], sep);
      if s[0] == sep then [[]] + rest
      else [[s[0]] + rest[0]] + rest[1..]
  }

  /** strings.Join(parts, sep). */
  function Join(parts: seq<string>, sep: string): string {
    if parts == [] then []
    else if |parts| == 1 then parts[0]
    else parts[0] + sep + Join(parts[1..], sep)
  }

  /** Joining the pieces of a split with the separator gives the text back. */
  lemma {:induction false} JoinSplit(s: string, sep: char)
    ensures Join(Split(s, sep), [sep]) == s
  {
    if s != [] {
      var rest := Split(s[1..], sep);
      JoinSplit(s[1..], sep);
      if s[0] == sep {
        assert Split(s, sep) == [[]] + rest;
        assert Join(Split(s, sep), [sep]) == [] + [sep] + Join(rest, [sep]);
      } else if |rest| == 1 {
        assert Split(s, sep) == [[s[0]] + rest[0]];
      } else {
        var parts := Split(s, sep);
        assert parts == [[s[0]] + rest[0]] + rest[1..];
        assert parts[1..] == rest[1..];
        assert Join(rest, [sep]) == rest[0] + [sep] + Join(rest[1..], [sep]);
        assert Join(parts, [sep]) == [s[0]] + rest[0] + [sep] + Join(rest[1..], [sep]);
      }
    }
  }

  lemma {:induction false} SplitNoSeparator(s: string, sep: char)
    requires sep !in s
    ensures Split(s, sep) == [s]
  {
    if s != [] {
      SplitNoSeparator(s[1..], sep);
      assert [s[0]] + s[1..] == s;
    }
  }

  lemma {:induction false} SplitAtSeparator(x: string, sep: char, y: string)
    requires sep !in x
    ensures Split(x + [sep] + y, sep) == [x] + Split(y, sep)
  {
    var s := x + [sep] + y;
    if x == [] {
      assert s[1..] == y;
    } else {
      assert s[1..] == x[1..] + [sep] + y;
      SplitAtSeparator(x[1..], sep, y);
      assert [x[0]] + x[1..] == x;
    }
  }

  /** Splitting a join of separator-free pieces gives the pieces back. */
  lemma {:induction false} SplitJoin(parts: seq<string>, sep: char)
    requires |parts| >= 1
    requires forall i :: 0 <= i < |parts| ==> sep !in parts[i]
    ensures Split(Join(parts, [sep]), sep) == parts
  {
    if |parts| == 1 {
      SplitNoSeparator(parts[0], sep);
    } else {
      SplitJoin(parts[1..], sep);
      SplitAtSeparator(parts[0], sep, Join(parts[1..], [sep]));
      assert parts == [parts[0]] + parts[1..];
    }
  }

  // ---------------------------------------------------------------- TrimSpace

  /** The text without its leading white space. */
  function TrimLeft(s: string): (r: string)
    ensures |r| <= |s|
  {
    if s != [] && IsSpace(s[0]) then TrimLeft(s[1..]) else s
  }

  /** The text without its trailing white space. */
  function TrimRight(s: string): (r: string)
    ensures |r| <= |s|
  {
    if s != [] && IsSpace(s[|s| - 1]) then TrimRight(s[..|s| - 1]) else s
  }

  /** TrimLeft removes exactly the leading run of white space. */
  lemma {:induction false} TrimLeftRemovesLeadingSpace(s: string)
    ensures TrimLeft(s) == s[|s| - |TrimLeft(s)|..]
    ensures AllSpace(s[..|s| - |TrimLeft(s)|])
    ensures TrimLeft(s) != [] ==> !IsSpace(TrimLeft(s)[0])
  {
    if s != [] && IsSpace(s[0]) {
      var r := TrimLeft(s[1..]);
      TrimLeftRemovesLeadingSpace(s[1..]);
      assert s[..|s| - |r|] == [s[0]] + s[1..][..|s| - 1 - |r|];
    }
  }

  /** TrimRight removes exactly the trailing run of white space. */
  lemma {:induction false} TrimRightRemovesTrailingSpace(s: string)
    ensures TrimRight(s) == s[..|TrimRight(s)|]
    ensures AllSpace(s[|TrimRight(s)|..])
    ensures TrimRight(s) != [] ==> !IsSpace(TrimRight(s)[|TrimRight(s)| - 1])
  {
    if s != [] && IsSpace(s[|s| - 1]) {
      var r := TrimRight(s[..|s| - 1]);
      TrimRightRemovesTrailingSpace(s[..|s| - 1]);
      assert s[|r|..] == s[..|s| - 1][|r|..] + [s[|s| - 1]];
    }
  }

  /** strings.TrimSpace: the slice of s left once its leading and trailing white
      space is removed; it neither starts nor ends with white space. */
  function TrimSpace(s: string): (r: string)
    ensures exists i :: 0 <= i <= |s| - |r| && r == s[i..i + |r|] && AllSpace(s[..i]) && AllSpace(s[i + |r|..])
    ensures r != [] ==> !IsSpace(r[0]) && !IsSpace(r[|r| - 1])
  {
    var t := TrimLeft(s);
    var r := TrimRight(t);
    TrimLeftRemovesLeadingSpace(s);
    TrimRightRemovesTrailingSpace(t);
    var i := |s| - |t|;
    assert r == s[i..i + |r|];
    assert s[i + |r|..] == t[|r|..];
    r
  }

  lemma {:induction false} TrimLeftPadded(a: string, t: string)
    requires AllSpace(a)
    requires t == [] || !IsSpace(t[0])
    ensures TrimLeft(a + t) == t
  {
    if a != [] {
      assert IsSpace(a[0]) && (a + t)[0] == a[0];
      assert (a + t)[1..] == a[1..] + t;
      TrimLeftPadded(a[1..], t);
    }
  }

  lemma {:induction false} TrimRightPadded(t: string, b: string)
    requires AllSpace(b)
    requires t == [] || !IsSpace(t[|t| - 1])
    ensures TrimRight(t + b) == t
  {
    if b != [] {
      assert IsSpace(b[|b| - 1]) && (t + b)[|t + b| - 1] == b[|b| - 1];
      assert (t + b)[..|t + b| - 1] == t + b[..|b| - 1];
      TrimRightPadded(t, b[..|b| - 1]);
    }
  }

  /** TrimSpace recovers any text that does not start or end with white space from
      that text padded with white space on both sides. */
  lemma TrimSpacePadded(a: string, m: string, b: string)
    requires AllSpace(a) && AllSpace(b)
    requires m != [] ==> !IsSpace(m[0]) && !IsSpace(m[|m| - 1])
    ensures TrimSpace(a + m + b) == m
  {
    if m == [] {
      assert AllSpace(a + b);
      TrimLeftPadded(a + b, []);
      assert a + m + b == (a + b) + [];
    } else {
      TrimLeftPadded(a, m + b);
      assert a + m + b == a + (m + b);
      TrimRightPadded(m, b);
    }
  }

  // ---------------------------------------------------------------- Fields

  /** The longest prefix of s that holds no white space. */
  function Word(s: string): (w: string)
    ensures |w| <= |s| && w == s[..|w|] && NoSpace(w)
    ensures |w| < |s| ==> IsSpace(s[|w|])
  {
    if s == [] || IsSpace(s[0]) then []
    else
      var v := Word(s[1..]);
      assert [s[0]] + v == s[..1 + |v|];
      [s[0]] + v
  }

  /** strings.Fields: the maximal runs of non-white-space characters of s, in order. */
  function Fields(s: string): (fs: seq<string>)
    ensures forall i :: 0 <= i < |fs| ==> IsWord(fs[i])
    decreases |s|
  {
    var t := TrimLeft(s);
    TrimLeftRemovesLeadingSpace(s);
    if t == [] then []
    else
      var w := Word(t);
      assert w != [];
      [w] + Fields(t[|w|..])
  }

  lemma {:induction false} TrimLeftSkip(a: string, t: string)
    requires AllSpace(a)
    ensures TrimLeft(a + t) == TrimLeft(t)
  {
    if a != [] {
      assert IsSpace(a[0]) && (a + t)[0] == a[0];
      assert (a + t)[1..] == a[1..] + t;
      TrimLeftSkip(a[1..], t);
    } else {
      assert a + t == t;
    }
  }

  lemma Associative<T>(a: seq<T>, b: seq<T>, c: seq<T>)
    ensures a + b + c == a + (b + c)
  {
  }

  lemma {:induction false} WordAppend(t: string, u: string)
    ensures Word(t + u) == if |Word(t)| < |t| then Word(t) else t + Word(u)
  {
    if t == [] {
      assert t + u == u;
    } else {
      var s := t + u;
      assert s[0] == t[0];
      if !IsSpace(t[0]) {
        assert s[1..] == t[1..] + u;
        WordAppend(t[1..], u);
        assert Word(t) == [t[0]] + Word(t[1..]);
        assert Word(s) == [t[0]] + Word(t[1..] + u);
        if |Word(t[1..])| == |t[1..]| {
          Associative([t[0]], t[1..], Word(u));
          assert [t[0]] + t[1..] == t;
        }
      }
    }
  }

  lemma FieldsOfTrimmed(s: string)
    ensures Fields(s) == Fields(TrimLeft(s))
  {
    var t := TrimLeft(s);
    TrimLeftRemovesLeadingSpace(s);
    TrimLeftPadded([], t);
    assert [] + t == t;
  }

  /** Leading white space does not change the fields. */
  lemma FieldsAfterSpaces(a: string, y: string)
    requires AllSpace(a)
    ensures Fields(a + y) == Fields(y)
  {
    FieldsOfTrimmed(a + y);
    TrimLeftSkip(a, y);
    FieldsOfTrimmed(y);
  }

  /** A text that starts with a non-space character starts with its first word. */
  lemma FieldsFromWord(t: string)
    requires t != [] && !IsSpace(t[0])
    ensures Fields(t) == [Word(t)] + Fields(t[|Word(t)|..])
  {
    TrimLeftPadded([], t);
    assert [] + t == t;
  }

  /** Fields splits at every white-space character. */
  lemma {:induction false} FieldsAtSpace(x: string, c: char, y: string)
    requires IsSpace(c)
    ensures Fields(x + [c] + y) == Fields(x) + Fields(y)
    decreases |x|
  {
    if TrimLeft(x) == [] {
      FieldsAtSpaceBlank(x, c, y);
    } else {
      var t := TrimLeft(x);
      var w := Word(t);
      FieldsAtSpaceUnfold(x, c, y);
      FieldsAtSpace(t[|w|..], c, y);
      Associative([w], Fields(t[|w|..]), Fields(y));
    }
  }

  lemma FieldsAtSpaceBlank(x: string, c: char, y: string)
    requires IsSpace(c) && TrimLeft(x) == []
    ensures Fields(x + [c] + y) == Fields(x) + Fields(y)
  {
    TrimLeftRemovesLeadingSpace(x);
    assert x[..|x|] == x;
    assert AllSpace(x + [c]);
    FieldsAfterSpaces(x + [c], y);
    FieldsAfterSpaces(x, []);
    assert x + [] == x;
    assert x + [c] + y == (x + [c]) + y;
  }

  lemma FieldsAtSpaceUnfold(x: string, c: char, y: string)
    requires IsSpace(c) && TrimLeft(x) != []
    ensures Word(TrimLeft(x)) != []
    ensures Fields(x + [c] + y)
         == [Word(TrimLeft(x))] + Fields(TrimLeft(x)[|Word(TrimLeft(x))|..] + [c] + y)
    ensures Fields(x) == [Word(TrimLeft(x))] + Fields(TrimLeft(x)[|Word(TrimLeft(x))|..])
  {
    var t := TrimLeft(x);
    TrimLeftRemovesLeadingSpace(x);
    var a := x[..|x| - |t|];
    assert x == a + t;
    assert x + [c] + y == a + (t + [c] + y);
    FieldsAfterSpaces(a, t + [c] + y);
    FieldsAfterSpaces(a, t);
    FieldsAtSpaceAfterWord(t, c, y);
  }

  lemma FieldsAtSpaceAfterWord(t: string, c: char, y: string)
    requires IsSpace(c) && t != [] && !IsSpace(t[0])
    ensures Word(t) != []
    ensures Fields(t + [c] + y) == [Word(t)] + Fields(t[|Word(t)|..] + [c] + y)
    ensures Fields(t) == [Word(t)] + Fields(t[|Word(t)|..])
  {
    var w := Word(t);
    WordAppend(t, [c] + y);
    assert t + [c] + y == t + ([c] + y);
    FieldsFromWord(t + [c] + y);
    FieldsFromWord(t);
    assert (t + [c] + y)[|w|..] == t[|w|..] + [c] + y;
  }

  lemma {:induction false} FieldsOfWord(w: string)
    requires IsWord(w)
    ensures Fields(w) == [w]
  {
    TrimLeftPadded([], w);
    assert [] + w == w;
    WordAppend(w, []);
    assert w + [] == w;
    assert w[|w|..] == [];
  }

  /** Fields recovers the words of a text whose words are separated by single spaces. */
  lemma {:induction false} FieldsJoin(ws: seq<string>)
    requires forall i :: 0 <= i < |ws| ==> IsWord(ws[i])
    ensures Fields(Join(ws, " ")) == ws
  {
    if ws == [] {
    } else if |ws| == 1 {
      FieldsOfWord(ws[0]);
    } else {
      FieldsJoin(ws[1..]);
      FieldsOfWord(ws[0]);
      FieldsAtSpace(ws[0], ' ', Join(ws[1..], " "));
      assert ws == [ws[0]] + ws[1..];
    }
  }

  // ---------------------------------------------------------------- Contains

  /** strings.Contains(s, sub). */
  function Contains(s: string, sub: string): bool
  {
    if |sub| > |s| then false
    else if s[..|sub|] == sub then true
    else Contains(s[1..], sub)
  }

  lemma SliceOfTail(s: string, i: int, j: int)
    requires 1 <= i <= j <= |s|
    ensures s[1..][i - 1..j - 1] == s[i..j]
  {
    assert forall k :: 0 <= k < j - i ==> s[1..][i - 1..j - 1][k] == s[i..j][k];
  }

  predicate OccursAt(s: string, sub: string, i: int) {
    0 <= i <= |s| - |sub| && s[i..i + |sub|] == sub
  }

  /** Contains holds exactly when sub occurs at some position of s. */
  lemma {:induction false} ContainsOccurs(s: string, sub: string)
    ensures Contains(s, sub) <==> exists i :: OccursAt(s, sub, i)
  {
    if |sub| <= |s| && s[..|sub|] != sub {
      ContainsOccurs(s[1..], sub);
      if Contains(s, sub) {
        var i :| OccursAt(s[1..], sub, i);
        assert s[i + 1..i + 1 + |sub|] == s[1..][i..i + |sub|];
        assert OccursAt(s, sub, i + 1);
      } else {
        forall i | 0 <= i <= |s| - |sub|
          ensures !OccursAt(s, sub, i)
        {
          if i > 0 {
            SliceOfTail(s, i, i + |sub|);
            assert !OccursAt(s[1..], sub, i - 1);
          }
        }
      }
    } else if |sub| <= |s| {
      assert OccursAt(s, sub, 0);
    }
  }

  // ---------------------------------------------------------------- ReplaceAll

  /** bytes.ReplaceAll(s, pat, []): deletes the occurrences of pat found by one scan
      from left to right, each match resuming after the previous one. An empty pat
      matches only empty text, so nothing is deleted. */
  function RemoveAll(s: string, pat: string): (r: string)
    ensures |r| <= |s|
  {
    if pat == [] || |s| < |pat| then s
    else if s[..|pat|] == pat then RemoveAll(s[|pat|..], pat)
    else [s[0]] + RemoveAll(s[1..], pat)
  }

  /** Text without an occurrence of pat is left unchanged. */
  lemma {:induction false} RemoveAllAbsent(s: string, pat: string)
    requires !Contains(s, pat)
    ensures RemoveAll(s, pat) == s
  {
    if pat != [] && |s| >= |pat| {
      RemoveAllAbsent(s[1..], pat);
      assert [s[0]] + s[1..] == s;
    }
  }

  /** A prefix free of the first character of pat is copied unchanged. */
  lemma {:induction false} RemoveAllSkip(x: string, y: string, pat: string)
    requires pat != [] && pat[0] !in x
    ensures RemoveAll(x + y, pat) == x + RemoveAll(y, pat)
  {
    if x != [] {
      var s := x + y;
      RemoveAllSkip(x[1..], y, pat);
      assert s[1..] == x[1..] + y;
      if |s| < |pat| {
        assert |y| < |pat|;
      } else {
        assert s[0] != pat[0];
      }
    } else {
      assert x + y == y;
    }
  }

  /** An occurrence of pat at the front is deleted. */
  lemma RemoveAllFront(pat: string, y: string)
    requires pat != []
    ensures RemoveAll(pat + y, pat) == RemoveAll(y, pat)
  {
    assert (pat + y)[..|pat|] == pat;
    assert (pat + y)[|pat|..] == y;
  }

  /** RemoveAll works independently on both sides of a character pat does not hold. */
  lemma {:induction false} RemoveAllAtBreak(a: string, c: char, b: string, pat: string)
    requires c !in pat
    ensures RemoveAll(a + [c] + b, pat) == RemoveAll(a, pat) + [c] + RemoveAll(b, pat)
    decreases |a|
  {
    var s := a + [c] + b;
    if pat == [] || |s| < |pat| {
      assert RemoveAll(a, pat) == a && RemoveAll(b, pat) == b;
    } else if |a| < |pat| {
      RemoveAllAcrossBreak(a, c, b, pat);
    } else if a[..|pat|] == pat {
      assert s[..|pat|] == a[..|pat|];
      assert s[|pat|..] == a[|pat|..] + [c] + b;
      RemoveAllAtBreak(a[|pat|..], c, b, pat);
    } else {
      assert s[..|pat|] == a[..|pat|];
      assert s[1..] == a[1..] + [c] + b;
      RemoveAllAtBreak(a[1..], c, b, pat);
    }
  }

  /** No occurrence of pat can start in a prefix shorter than pat that is followed by
      a character pat does not hold. */
  lemma {:induction false} RemoveAllAcrossBreak(a: string, c: char, b: string, pat: string)
    requires c !in pat && |a| < |pat|
    ensures RemoveAll(a + [c] + b, pat) == a + [c] + RemoveAll(b, pat)
    ensures RemoveAll(a, pat) == a
  {
    var s := a + [c] + b;
    if |s| < |pat| {
      assert RemoveAll(b, pat) == b;
    } else {
      assert s[..|pat|][|a|] == c;
      assert s[..|pat|] != pat;
      if a == [] {
        assert s[1..] == b;
      } else {
        assert s[1..] == a[1..] + [c] + b;
        RemoveAllAcrossBreak(a[1..], c, b, pat);
        assert [a[0]] + a[1..] == a;
      }
    }
  }

  lemma {:induction false} RemoveAllKeepsOut(s: string, pat: string, c: char)
    requires c !in s
    ensures c !in RemoveAll(s, pat)
  {
    if pat != [] && |s| >= |pat| {
      if s[..|pat|] == pat {
        RemoveAllKeepsOut(s[|pat|..], pat, c);
      } else {
        RemoveAllKeepsOut(s[1..], pat, c);
      }
    }
  }

  /** Removing pat from a joined text is removing it from every piece, when the
      separator is not part of pat. */
  lemma {:induction false} RemoveAllJoin(parts: seq<string>, sep: char, pat: string)
    requires sep !in pat
    ensures RemoveAll(Join(parts, [sep]), pat)
         == Join(seq(|parts|, i requires 0 <= i < |parts| => RemoveAll(parts[i], pat)), [sep])
  {
    var stripped := seq(|parts|, i requires 0 <= i < |parts| => RemoveAll(parts[i], pat));
    if |parts| == 1 {
      assert Join(stripped, [sep]) == stripped[0];
    } else if |parts| > 1 {
      var tail := seq(|parts| - 1, i requires 0 <= i < |parts| - 1 => RemoveAll(parts[1..][i], pat));
      var rest := Join(parts[1..], [sep]);
      assert Join(parts, [sep]) == parts[0] + [sep] + rest;
      RemoveAllJoin(parts[1..], sep, pat);
      RemoveAllAtBreak(parts[0], sep, rest, pat);
      assert stripped[1..] == tail;
      assert Join(stripped, [sep]) == stripped[0] + [sep] + Join(tail, [sep]);
    }
  }

  /** Removing pat, when it holds no line break, acts line by line: the lines of the
      result are the lines of s with pat removed from each. */
  lemma SplitRemoveAll(s: string, pat: string)
    requires '\n' !in pat
    ensures |Split(RemoveAll(s, pat), '\n')| == |Split(s, '\n')|
    ensures forall i :: 0 <= i < |Split(s, '\n')| ==>
              Split(RemoveAll(s, pat), '\n')[i] == RemoveAll(Split(s, '\n')[i], pat)
  {
    var lines := Split(s, '\n');
    var stripped := seq(|lines|, i requires 0 <= i < |lines| => RemoveAll(lines[i], pat));
    JoinSplit(s, '\n');
    RemoveAllJoin(lines, '\n', pat);
    forall i | 0 <= i < |stripped|
      ensures '\n' !in stripped[i]
    {
      RemoveAllKeepsOut(lines[i], pat, '\n');
    }
    SplitJoin(stripped, '\n');
  }

  // ---------------------------------------------------------------- len

  /** The number of bytes that the UTF-8 encoding of c takes. */
  function Utf8Width(c: char): (n: nat)
    ensures 1 <= n <= 4
    ensures n == 1 <==> c as int < 0x80
  {
    if c as int < 0x80 then 1
    else if c as int < 0x800 then 2
    else if c as int < 0x10000 then 3
    else 4
  }

  /** len of a Go string: the number of bytes of its UTF-8 encoding. */
  function ByteLen(s: string): nat {
    if s == [] then 0 else Utf8Width(s[0]) + ByteLen(s[1..])
  }

  /** A string has at least as many bytes as characters. */
  lemma {:induction false} ByteLenAtLeastLength(s: string)
    ensures ByteLen(s) >= |s|
    decreases |s|
  {
    if s != [] {
      ByteLenAtLeastLength(s[1..]);
    }
  }

  /** A string is longer than one byte exactly when it has more than one character or
      is a single character outside ASCII. */
  lemma ByteLenAboveOne(s: string)
    ensures ByteLen(s) > 1 <==> |s| > 1 || (|s| == 1 && s[0] as int >= 0x80)
  {
    if |s| > 1 {
      ByteLenAtLeastLength(s);
    } else if |s| == 1 {
      assert s[1..] == [];
    }
  }
}
