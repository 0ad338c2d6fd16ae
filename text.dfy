/** The Python `str` built-ins the scripts rely on (`in`, `find`, `split`, `join`,
    `startswith`, `strip`, `lower`, `int()` and `str()` on integers, slicing and
    the ordering of strings), written as total functions over `seq<char>`. */
module Text {
  import opened Wrappers

  /** `p` occurs in `t` starting at index `k`. */
  predicate OccursAt(t: string, p: string, k: nat)
  {
    k + |p| <= |t| && t[k..k + |p|] == p
  }

  /** Occurrences in `t` past its first character are the occurrences in `t[1..]`, shifted by one. */
  lemma OccursShift(t: string, p: string)
    requires |t| > 0
    ensures forall j: nat :: 0 < j ==> (OccursAt(t, p, j) <==> OccursAt(t[1..], p, j - 1))
  {
    forall j: nat | 0 < j ensures OccursAt(t, p, j) <==> OccursAt(t[1..], p, j - 1) {
      if j + |p| <= |t| {
        assert t[1..][j - 1..j - 1 + |p|] == t[j..j + |p|];
      }
    }
  }

  /** Index of the first occurrence of `p` in `t` (`t.find(p)`, with None for -1). */
  function Find(t: string, p: string): (r: Option<nat>)
    ensures r.Some? ==> OccursAt(t, p, r.value)
    ensures r.Some? ==> forall j: nat :: j < r.value ==> !OccursAt(t, p, j)
    ensures r.None? ==> forall j: nat :: !OccursAt(t, p, j)
    decreases |t|
  {
    if |t| < |p| then None
    else if t[..|p|] == p then Some(0)
    else
      OccursShift(t, p);
      match Find(t[1..], p)
      case None => None
      case Some(k) => Some(k + 1)
  }

  /** Python `p in t`. */
  predicate Contains(t: string, p: string)
  {
    Find(t, p).Some?
  }

  /** Python `s.startswith(p)`. */
  predicate StartsWith(s: string, p: string)
  {
    |p| <= |s| && s[..|p|] == p
  }

  /** A text starts with any of its own prefixes. */
  lemma StartsWithConcat(p: string, rest: string)
    ensures StartsWith(p + rest, p)
  {
    assert (p + rest)[..|p|] == p;
  }

  /** A text that differs from `p` at a position inside `p` does not start with `p`. */
  lemma NotStartsWithAt(s: string, p: string, i: nat)
    requires i < |p| && i < |s| && s[i] != p[i]
    ensures !StartsWith(s, p)
  {
    if |p| <= |s| {
      assert s[..|p|][i] == s[i];
    }
  }

  /** Python `s.split(sep)` for a non-empty separator: the pieces between the
      successive left-most occurrences of `sep`. */
  function Split(s: string, sep: string): (r: seq<string>)
    requires sep != []
    ensures |r| >= 1
    decreases |s|
  {
    match Find(s, sep)
    case None => [s]
    case Some(k) => [s[..k]] + Split(s[k + |sep|..], sep)
  }

  /** Python `sep.join(parts)`. */
  function Join(parts: seq<string>, sep: string): string
  {
    if |parts| == 0 then ""
    else if |parts| == 1 then parts[0]
    else parts[0] + sep + Join(parts[1..], sep)
  }

  /** Splitting and joining back with the same separator gives the string again. */
  lemma {:induction false} JoinSplit(s: string, sep: string)
    requires sep != []
    ensures Join(Split(s, sep), sep) == s
    decreases |s|
  {
    match Find(s, sep)
    case None =>
    case Some(k) =>
      var rest := s[k + |sep|..];
      JoinSplit(rest, sep);
      JoinSplitStep(s, sep, k);
  }

  /** One step of `JoinSplit`: the piece before the first separator, the separator, and the rest. */
  lemma JoinSplitStep(s: string, sep: string, k: nat)
    requires sep != [] && Find(s, sep) == Some(k)
    requires Join(Split(s[k + |sep|..], sep), sep) == s[k + |sep|..]
    ensures Join(Split(s, sep), sep) == s
  {
    var rest := s[k + |sep|..];
    var parts := Split(s, sep);
    assert parts == [s[..k]] + Split(rest, sep);
    assert parts[1..] == Split(rest, sep);
    assert Join(parts, sep) == s[..k] + sep + rest;
    assert s[k..k + |sep|] == sep;
    assert s == s[..k] + s[k..k + |sep|] + rest;
  }

  lemma OccursInPrefix(s: string, sep: string, k: nat, j: nat)
    requires sep != [] && k <= |s| && OccursAt(s[..k], sep, j)
    ensures OccursAt(s, sep, j) && j < k
  {
    assert s[..k][j..j + |sep|] == s[j..j + |sep|];
  }

  /** No piece produced by `split` contains the separator. */
  lemma {:induction false} SplitPiecesFree(s: string, sep: string)
    requires sep != []
    ensures forall i :: 0 <= i < |Split(s, sep)| ==> !Contains(Split(s, sep)[i], sep)
    decreases |s|
  {
    match Find(s, sep)
    case None =>
    case Some(k) =>
      var rest := s[k + |sep|..];
      SplitPiecesFree(rest, sep);
      var parts := Split(s, sep);
      assert parts == [s[..k]] + Split(rest, sep);
      if Contains(s[..k], sep) {
        var j := Find(s[..k], sep).value;
        OccursInPrefix(s, sep, k, j);
        assert false;
      }
      forall i | 0 <= i < |parts| ensures !Contains(parts[i], sep) {
        if i > 0 {
          assert parts[i] == Split(rest, sep)[i - 1];
        }
      }
  }

  /** The first piece of a split is a prefix of the string. */
  lemma SplitFirstPrefix(s: string, sep: string)
    requires sep != []
    ensures |Split(s, sep)[0]| <= |s| && Split(s, sep)[0] == s[..|Split(s, sep)[0]|]
  {
  }

  /** Every character of a join comes from a part or from the separator. */
  lemma {:induction false} JoinChars(parts: seq<string>, sep: string, c: char)
    requires c in Join(parts, sep)
    ensures c in sep || exists i :: 0 <= i < |parts| && c in parts[i]
  {
    if |parts| > 1 {
      var rest := parts[1..];
      if c !in parts[0] && c !in sep {
        JoinChars(rest, sep, c);
        var i :| 0 <= i < |rest| && c in rest[i];
        assert rest[i] == parts[i + 1];
      }
    }
  }

  /** The first piece of a split runs from the start of the string up to the
      first occurrence of the separator, or to the end when there is none. */
  lemma SplitFirst(s: string, sep: string)
    requires sep != []
    ensures var p := Split(s, sep)[0];
            && p == s[..|p|]
            && !Contains(p, sep)
            && (|p| == |s| || OccursAt(s, sep, |p|))
            && (Contains(s, sep) ==> |p| < |s|)
  {
    SplitPiecesFree(s, sep);
  }

  /** With a one-character separator, the first piece stops at the first occurrence of that character. */
  lemma SplitFirstChar(s: string, c: char)
    ensures var p := Split(s, [c])[0];
            && |p| <= |s| && p == s[..|p|]
            && c !in p
            && (|p| == |s| || s[|p|] == c)
  {
    var p := Split(s, [c])[0];
    SplitFirst(s, [c]);
    ContainsChar(p, c);
    if |p| < |s| {
      assert s[|p|..|p| + 1] == [c];
    }
  }

  /** The pieces after the first are the split of the text after the first separator. */
  lemma SplitAfterFirst(s: string, sep: string, k: nat)
    requires sep != [] && Find(s, sep) == Some(k)
    ensures k + |sep| <= |s|
    ensures Split(s, sep) == [s[..k]] + Split(s[k + |sep|..], sep)
  {
    assert OccursAt(s, sep, k);
    var rest := s[k + |sep|..];
    assert Split(s, sep) == [s[..k]] + Split(rest, sep);
  }

  /** A string without the separator splits into itself alone. */
  lemma SplitWithoutSep(s: string, sep: string)
    requires sep != [] && !Contains(s, sep)
    ensures Split(s, sep) == [s]
  {
  }

  /** A string that contains `p` contains each of its characters. */
  lemma ContainsEachChar(t: string, p: string, j: nat)
    requires j < |p| && Contains(t, p)
    ensures p[j] in t
  {
    var k := Find(t, p).value;
    assert t[k..k + |p|][j] == t[k + j];
  }

  /** An occurrence with none before it is the one `find` returns. */
  lemma FindAt(t: string, p: string, k: nat)
    requires OccursAt(t, p, k)
    requires forall j: nat :: j < k ==> !OccursAt(t, p, j)
    ensures Find(t, p) == Some(k)
  {
  }

  /** Joining one more part adds the separator and that part. */
  lemma JoinSnoc(parts: seq<string>, x: string, sep: string)
    requires |parts| >= 1
    ensures Join(parts + [x], sep) == Join(parts, sep) + sep + x
    decreases |parts|
  {
    if |parts| > 1 {
      assert (parts + [x])[1..] == parts[1..] + [x];
      JoinSnoc(parts[1..], x, sep);
    } else {
      assert (parts + [x])[1..] == [x];
    }
  }

  /** `s` has no white-space character. */
  predicate Plain(s: string)
  {
    forall k :: 0 <= k < |s| ==> s[k] !in Whitespace
  }

  /** Joining plain parts with a plain separator gives a plain string. */
  lemma JoinPlain(parts: seq<string>, sep: string)
    requires Plain(sep) && forall i :: 0 <= i < |parts| ==> Plain(parts[i])
    ensures Plain(Join(parts, sep))
  {
    var s := Join(parts, sep);
    forall k | 0 <= k < |s| ensures s[k] !in Whitespace {
      JoinChars(parts, sep, s[k]);
    }
  }

  /** A one-character needle is found exactly at the first position holding it. */
  lemma FindChar(t: string, c: char, k: nat)
    requires k < |t| && t[k] == c && c !in t[..k]
    ensures Find(t, [c]) == Some(k)
  {
    assert OccursAt(t, [c], k);
    var m := Find(t, [c]).value;
    assert m <= k;
    assert t[m..m + 1] == [c];
    assert forall i :: 0 <= i < k ==> t[..k][i] == t[i];
  }

  lemma FindNoChar(t: string, c: char)
    requires c !in t
    ensures Find(t, [c]) == None
  {
    forall j: nat ensures !OccursAt(t, [c], j) {
      if j + 1 <= |t| {
        assert t[j..j + 1] == [t[j]];
      }
    }
  }

  /** For a one-character needle, Python's `in` on strings is membership of the character. */
  lemma ContainsChar(t: string, c: char)
    ensures Contains(t, [c]) <==> c in t
  {
    if c in t {
      var k :| 0 <= k < |t| && t[k] == c;
      assert t[k..k + 1] == [c];
      assert OccursAt(t, [c], k);
    } else {
      FindNoChar(t, c);
    }
  }

  /** Joining parts free of a one-character separator and splitting again recovers the parts. */
  lemma {:induction false} SplitJoin(parts: seq<string>, c: char)
    requires |parts| >= 1
    requires forall i :: 0 <= i < |parts| ==> c !in parts[i]
    ensures Split(Join(parts, [c]), [c]) == parts
    decreases |parts|
  {
    if |parts| == 1 {
      FindNoChar(parts[0], c);
    } else {
      var rest := parts[1..];
      SplitJoin(rest, c);
      var s := Join(parts, [c]);
      assert s == parts[0] + [c] + Join(rest, [c]);
      assert s[..|parts[0]|] == parts[0];
      FindChar(s, c, |parts[0]|);
      assert s[|parts[0]| + 1..] == Join(rest, [c]);
    }
  }

  /** A character that is not in the text is in none of its pieces. */
  lemma {:induction false} SplitPiecesWithout(s: string, sep: string, c: char)
    requires sep != [] && c !in s
    ensures forall i :: 0 <= i < |Split(s, sep)| ==> c !in Split(s, sep)[i]
    decreases |s|
  {
    match Find(s, sep)
    case None =>
    case Some(k) =>
      var rest := s[k + |sep|..];
      SliceWithout(s, k + |sep|, |s|, c);
      SliceWithout(s, 0, k, c);
      SplitPiecesWithout(rest, sep, c);
      var parts := Split(s, sep);
      assert parts == [s[..k]] + Split(rest, sep);
      forall i | 0 < i < |parts| ensures c !in parts[i] {
        assert parts[i] == Split(rest, sep)[i - 1];
      }
  }

  /** No piece of a split on one character holds that character. */
  lemma SplitPiecesFreeChar(s: string, c: char)
    ensures forall i :: 0 <= i < |Split(s, [c])| ==> c !in Split(s, [c])[i]
  {
    SplitPiecesFree(s, [c]);
    forall i | 0 <= i < |Split(s, [c])| ensures c !in Split(s, [c])[i] {
      ContainsChar(Split(s, [c])[i], c);
    }
  }

  /** Joining free parts, then one more free part, splits back into all of them. */
  lemma SplitJoinSnoc(parts: seq<string>, x: string, c: char)
    requires |parts| >= 1 && c !in x
    requires forall i :: 0 <= i < |parts| ==> c !in parts[i]
    ensures Split(Join(parts, [c]) + [c] + x, [c]) == parts + [x]
  {
    JoinSnoc(parts, x, [c]);
    SplitJoin(parts + [x], c);
  }

  /** Two parts free of `c`, joined by `c`, split back into those parts. */
  lemma SplitPair(a: string, b: string, c: char)
    requires c !in a && c !in b
    ensures Split(a + [c] + b, [c]) == [a, b]
  {
    SplitJoin([a, b], c);
    assert [a, b][1..] == [b];
    assert Join([a, b], [c]) == a + [c] + b;
  }

  /** A part free of `c`, then `c`, then anything: the part is the first piece. */
  lemma SplitCons(a: string, x: string, c: char)
    requires c !in a
    ensures Split(a + [c] + x, [c]) == [a] + Split(x, [c])
  {
    var s := a + [c] + x;
    assert s[..|a|] == a;
    assert s[|a| + 1..] == x;
    FindChar(s, c, |a|);
    SplitAfterFirst(s, [c], |a|);
  }

  /** Three parts free of `c`, joined by `c`, split back into those parts. */
  lemma SplitTriple(a: string, b: string, d: string, c: char)
    requires c !in a && c !in b && c !in d
    ensures Split(a + [c] + b + [c] + d, [c]) == [a, b, d]
  {
    var x := b + [c] + d;
    assert a + [c] + b + [c] + d == a + [c] + x;
    SplitCons(a, x, c);
    SplitPair(b, d, c);
  }

  /** `pre + sep + post` splits into `pre` and `post` when `sep` first occurs
      after `pre` and `post` does not contain it. */
  lemma SplitOnce(pre: string, sep: string, post: string)
    requires sep != [] && !Contains(post, sep)
    requires forall j: nat :: j < |pre| ==> !OccursAt(pre + sep + post, sep, j)
    ensures Split(pre + sep + post, sep) == [pre, post]
  {
    var s := pre + sep + post;
    assert s[|pre|..|pre| + |sep|] == sep;
    FindAt(s, sep, |pre|);
    SplitAfterFirst(s, sep, |pre|);
    assert s[..|pre|] == pre;
    assert s[|pre| + |sep|..] == post;
    SplitWithoutSep(post, sep);
  }

  /** The characters for which Python's `str.isspace()` holds: those `str.strip()`
      and `str.split()` treat as white space. */
  predicate IsSpace(c: char)
  {
    || c == ' ' || '\t' <= c <= '\r' || '\U{001C}' <= c <= '\U{001F}' || c == '\U{0085}' || c == '\U{00A0}'
    || c == '\U{1680}' || '\U{2000}' <= c <= '\U{200A}' || c == '\U{2028}' || c == '\U{2029}'
    || c == '\U{202F}' || c == '\U{205F}' || c == '\U{3000}'
  }

  const Whitespace: set<char> := set c: char | '\t' <= c <= '\U{3000}' && IsSpace(c)

  /** Drops the leading characters that lie in `cs`. */
  function TrimLeft(s: string, cs: set<char>): (r: string)
    ensures |r| <= |s| && r == s[|s| - |r|..]
    ensures r == [] || r[0] !in cs
    ensures forall i :: 0 <= i < |s| - |r| ==> s[i] in cs
  {
    if s != [] && s[0] in cs then TrimLeft(s[1..], cs) else s
  }

  /** Drops the trailing characters that lie in `cs`. */
  function TrimRight(s: string, cs: set<char>): (r: string)
    ensures |r| <= |s| && r == s[..|r|]
    ensures r == [] || r[|r| - 1] !in cs
    ensures forall i :: |r| <= i < |s| ==> s[i] in cs
  {
    if s != [] && s[|s| - 1] in cs then TrimRight(s[..|s| - 1], cs) else s
  }

  /** Python `s.strip(chars)`: both ends trimmed of the characters in `cs`. */
  function StripSet(s: string, cs: set<char>): string
  {
    TrimRight(TrimLeft(s, cs), cs)
  }

  /** Python `s.strip()`. */
  function Strip(s: string): string
  {
    StripSet(s, Whitespace)
  }

  /** Stripping leaves a string whose ends are outside `cs` unchanged. */
  lemma StripUnchanged(s: string, cs: set<char>)
    requires s == [] || (s[0] !in cs && s[|s| - 1] !in cs)
    ensures StripSet(s, cs) == s
  {
  }

  /** Stripping is idempotent, and what it keeps is a run of the input. */
  lemma StripIdempotent(s: string, cs: set<char>)
    ensures StripSet(StripSet(s, cs), cs) == StripSet(s, cs)
    ensures exists i, j :: 0 <= i <= j <= |s| && StripSet(s, cs) == s[i..j]
  {
    var l := TrimLeft(s, cs);
    var r := TrimRight(l, cs);
    if r != [] {
      assert r[0] == l[0];
      StripUnchanged(r, cs);
    }
    assert r == s[|s| - |l|..][..|r|] == s[|s| - |l|..|s| - |l| + |r|];
  }

  /** Trimming a character of `cs` from the end of a text whose ends lie outside `cs` gives the text back. */
  lemma StripSetLast(s: string, c: char, cs: set<char>)
    requires c in cs
    requires s == [] || (s[0] !in cs && s[|s| - 1] !in cs)
    ensures StripSet(s + [c], cs) == s
  {
    var t := s + [c];
    assert t[..|t| - 1] == s;
    if s == [] {
      assert t[1..] == [];
    } else {
      assert t[0] == s[0];
    }
  }

  /** A line's terminating newline is removed by `strip()`, and nothing else when the text has no white space at its ends. */
  lemma StripNewline(s: string)
    requires s == [] || (s[0] !in Whitespace && s[|s| - 1] !in Whitespace)
    ensures Strip(s + "\n") == s
  {
    StripSetLast(s, '\n', Whitespace);
  }

  function LowerChar(c: char): char
  {
    if 'A' <= c <= 'Z' then (c as int + 32) as char else c
  }

  /** Python `s.lower()` on ASCII letters. */
  function Lower(s: string): string
  {
    seq(|s|, i requires 0 <= i < |s| => LowerChar(s[i]))
  }

  /** A character that is not in a text is in none of its slices. */
  lemma SliceWithout(s: string, a: nat, b: nat, c: char)
    requires a <= b <= |s| && c !in s
    ensures c !in s[a..b]
  {
    assert forall j :: 0 <= j < b - a ==> s[a..b][j] == s[a + j];
  }

  /** A character that is not in the text is not in the text stripped. */
  lemma StripWithout(s: string, cs: set<char>, c: char)
    requires c !in s
    ensures c !in StripSet(s, cs)
  {
    var l := TrimLeft(s, cs);
    SliceWithout(s, |s| - |l|, |s|, c);
    SliceWithout(l, 0, |TrimRight(l, cs)|, c);
  }

  /** Length of the leading run of non-white-space characters. */
  function WordLength(s: string): (n: nat)
    ensures n <= |s|
    ensures forall i :: 0 <= i < n ==> s[i] !in Whitespace
    ensures n == |s| || s[n] in Whitespace
  {
    if s == [] || s[0] in Whitespace then 0 else 1 + WordLength(s[1..])
  }

  /** Python `s.split()` without arguments: the maximal runs of non-white-space characters. */
  function Words(s: string): (r: seq<string>)
    ensures forall i :: 0 <= i < |r| ==> r[i] != []
    ensures forall i, k :: 0 <= i < |r| && 0 <= k < |r[i]| ==> r[i][k] !in Whitespace
    decreases |s|
  {
    if s == [] then []
    else if s[0] in Whitespace then Words(s[1..])
    else
      var n := WordLength(s);
      [s[..n]] + Words(s[n..])
  }

  /** Leading white space is skipped. */
  lemma {:induction false} WordsSkipSpace(w: string, s: string)
    requires forall i :: 0 <= i < |w| ==> w[i] in Whitespace
    ensures Words(w + s) == Words(s)
    decreases |w|
  {
    if w != [] {
      assert (w + s)[0] == w[0] && (w + s)[1..] == w[1..] + s;
      assert w[0] in Whitespace;
      assert Words(w + s) == Words(w[1..] + s);
      WordsSkipSpace(w[1..], s);
    } else {
      assert w + s == s;
    }
  }

  /** A word followed by white space or the end is split off whole. */
  lemma WordsWord(w: string, s: string)
    requires w != [] && forall i :: 0 <= i < |w| ==> w[i] !in Whitespace
    requires s == [] || s[0] in Whitespace
    ensures Words(w + s) == [w] + Words(s)
  {
    var t := w + s;
    assert t[0] == w[0];
    var n := WordLength(t);
    assert forall i :: 0 <= i < |w| ==> t[i] == w[i];
    assert |w| < |t| ==> t[|w|] == s[0];
    assert n == |w|;
    assert t[..n] == w && t[n..] == s;
  }

  /** `" ".join(words).split()` gives the words back when each is non-empty
      and free of white space. */
  lemma {:induction false} WordsJoin(words: seq<string>)
    requires forall i :: 0 <= i < |words| ==> words[i] != []
    requires forall i, k :: 0 <= i < |words| && 0 <= k < |words[i]| ==> words[i][k] !in Whitespace
    ensures Words(Join(words, " ")) == words
    decreases |words|
  {
    if |words| == 1 {
      WordsWord(words[0], []);
      assert words[0] + [] == words[0];
    } else if |words| > 1 {
      var rest := Join(words[1..], " ");
      WordsJoin(words[1..]);
      assert ' ' in Whitespace;
      assert Join(words, " ") == words[0] + (" " + rest);
      WordsWord(words[0], " " + rest);
      WordsSkipSpace(" ", rest);
    }
  }

  predicate IsDigit(c: char)
  {
    '0' <= c <= '9'
  }

  /** The body `int()` accepts after the sign: decimal digits, with single
      underscores allowed between two digits. */
  predicate IsDigitBody(b: string)
  {
    && |b| > 0 && IsDigit(b[0]) && IsDigit(b[|b| - 1])
    && forall i :: 0 <= i < |b| ==> DigitPlace(b, i)
  }

  /** Position `i` of `b` holds a digit, or an underscore between two digits. */
  predicate DigitPlace(b: string, i: nat)
    requires i < |b|
  {
    IsDigit(b[i]) || (b[i] == '_' && 0 < i < |b| - 1 && IsDigit(b[i - 1]) && IsDigit(b[i + 1]))
  }

  /** The decimal value of the digits of `b`, underscores skipped. */
  function DigitsValue(b: string): nat
  {
    if b == [] then 0
    else if IsDigit(b[|b| - 1]) then DigitsValue(b[..|b| - 1]) * 10 + (b[|b| - 1] as int - '0' as int)
    else DigitsValue(b[..|b| - 1])
  }

  /** Python `int(s)` on a string: surrounding white space, an optional sign and
      a digit body; None where Python raises ValueError. */
  function ParseInt(s: string): Option<int>
  {
    ParseSigned(Strip(s))
  }

  /** `int` on a stripped text: an optional sign, then a digit body. */
  function ParseSigned(t: string): Option<int>
  {
    if |t| > 0 && (t[0] == '+' || t[0] == '-') then
      if IsDigitBody(t[1..]) then
        var v: int := DigitsValue(t[1..]);
        Some(if t[0] == '-' then -v else v)
      else None
    else if IsDigitBody(t) then Some(DigitsValue(t))
    else None
  }

  function Digit(d: nat): char
    requires d < 10
  {
    ('0' as int + d) as char
  }

  /** Python `str(n)` for a natural number. */
  function NatToString(n: nat): (r: string)
    ensures |r| >= 1
    ensures forall i :: 0 <= i < |r| ==> IsDigit(r[i])
  {
    if n < 10 then [Digit(n)] else NatToString(n / 10) + [Digit(n % 10)]
  }

  /** Python `str(i)` for an integer. */
  function IntToString(i: int): string
  {
    if i < 0 then "-" + NatToString(-i) else NatToString(i)
  }

  lemma {:induction false} DigitsValueOfNat(n: nat)
    ensures DigitsValue(NatToString(n)) == n
  {
    var s := NatToString(n);
    if n >= 10 {
      DigitsValueOfNat(n / 10);
      assert s[..|s| - 1] == NatToString(n / 10);
    }
  }

  lemma NatToStringIsBody(n: nat)
    ensures IsDigitBody(NatToString(n))
    ensures DigitsValue(NatToString(n)) == n
  {
    DigitsValueOfNat(n);
  }

  /** `int(str(i)) == i`: the decimal rendering of an integer parses back to it. */
  lemma ParseIntToString(i: int)
    ensures ParseInt(IntToString(i)) == Some(i)
  {
    if i < 0 {
      ParseIntOfNegative(-i);
    } else {
      ParseIntOfNat(i);
      assert IntToString(i) == NatToString(i);
    }
  }

  /** `int` on a run of digits (with single underscores between digits). */
  lemma ParseIntOfDigits(t: string)
    requires IsDigitBody(t)
    ensures ParseInt(t) == Some(DigitsValue(t))
  {
    assert IsDigit(t[0]) && IsDigit(t[|t| - 1]);
    StripUnchanged(t, Whitespace);
  }

  /** `int` on a minus sign followed by a run of digits worth `v`. */
  lemma ParseIntOfMinusBody(b: string, v: int)
    requires IsDigitBody(b) && DigitsValue(b) == v
    ensures ParseInt("-" + b) == Some(-v)
  {
    var s := "-" + b;
    assert s[|s| - 1] == b[|b| - 1] && IsDigit(b[|b| - 1]);
    StripUnchanged(s, Whitespace);
    ParseSignedMinus(b, v);
  }

  lemma ParseSignedMinus(b: string, v: int)
    requires IsDigitBody(b) && DigitsValue(b) == v
    ensures ParseSigned("-" + b) == Some(-v)
  {
    assert ("-" + b)[1..] == b;
  }

  /** `int(str(n))` for a natural number. */
  lemma ParseIntOfNat(n: nat)
    ensures ParseInt(NatToString(n)) == Some(n)
  {
    NatToStringIsBody(n);
    ParseIntOfDigits(NatToString(n));
  }

  /** `int(str(-n))` for a positive number. */
  lemma ParseIntOfNegative(n: int)
    requires n > 0
    ensures ParseInt(IntToString(-n)) == Some(-n)
  {
    NatToStringIsBody(n);
    ParseIntOfMinusBody(NatToString(n), n);
    assert IntToString(-n) == "-" + NatToString(n);
  }

  /** `str` on integers is injective. */
  lemma IntToStringInjective(i: int, j: int)
    requires IntToString(i) == IntToString(j)
    ensures i == j
  {
    ParseIntToString(i);
    ParseIntToString(j);
  }

  /** A Python slice bound: negative counts from the end, then clamped into `[0, n]`. */
  function SliceBound(i: int, n: nat): (b: nat)
    ensures b <= n
  {
    if i < 0 then (if i + n < 0 then 0 else i + n) else if i > n then n else i
  }

  /** Python `s[i:j]` on a string or a list. */
  function Slice<T>(s: seq<T>, i: int, j: int): (r: seq<T>)
    ensures 0 <= i <= j <= |s| ==> r == s[i..j]
    ensures |r| <= |s|
  {
    var a := SliceBound(i, |s|);
    var b := SliceBound(j, |s|);
    if a < b then s[a..b] else []
  }

  /** Python's `<` on strings: lexicographic by code point. */
  predicate LexLess(a: string, b: string)
  {
    |b| > 0 && (|a| == 0 || a[0] < b[0] || (a[0] == b[0] && LexLess(a[1..], b[1..])))
  }

  lemma {:induction false} LexLessIrreflexive(a: string)
    ensures !LexLess(a, a)
  {
    if |a| > 0 {
      LexLessIrreflexive(a[1..]);
    }
  }

  lemma {:induction false} LexLessTransitive(a: string, b: string, c: string)
    requires LexLess(a, b) && LexLess(b, c)
    ensures LexLess(a, c)
  {
    if |a| > 0 && a[0] == b[0] && b[0] == c[0] {
      LexLessTransitive(a[1..], b[1..], c[1..]);
    }
  }

  /** Two different strings are ordered one way or the other. */
  lemma {:induction false} LexLessTotal(a: string, b: string)
    requires a != b
    ensures LexLess(a, b) || LexLess(b, a)
  {
    if |a| > 0 && |b| > 0 && a[0] == b[0] {
      assert a == [a[0]] + a[1..] && b == [b[0]] + b[1..];
      LexLessTotal(a[1..], b[1..]);
    }
  }

  lemma {:induction false} LexLessAsymmetric(a: string, b: string)
    requires LexLess(a, b)
    ensures !LexLess(b, a)
  {
    if |a| > 0 && a[0] == b[0] {
      LexLessAsymmetric(a[1..], b[1..]);
    }
  }

  /** Two strings of equal length keep their order whatever follows them. */
  lemma {:induction false} LexLessExtend(a: string, b: string, x: string, y: string)
    requires |a| == |b| && LexLess(a, b)
    ensures LexLess(a + x, b + y)
  {
    if a[0] == b[0] && !(a[0] < b[0]) {
      LexLessExtend(a[1..], b[1..], x, y);
      assert (a + x)[1..] == a[1..] + x;
      assert (b + y)[1..] == b[1..] + y;
    }
  }

  /** A common prefix does not change the order. */
  lemma {:induction false} LexLessCommonPrefix(p: string, x: string, y: string)
    requires LexLess(x, y)
    ensures LexLess(p + x, p + y)
  {
    if p == [] {
      assert p + x == x && p + y == y;
    } else {
      LexLessCommonPrefix(p[1..], x, y);
      assert (p + x)[0] == (p + y)[0];
      assert (p + x)[1..] == p[1..] + x;
      assert (p + y)[1..] == p[1..] + y;
    }
  }

  function Pow10(k: nat): (r: nat)
    ensures r >= 1
  {
    if k == 0 then 1 else 10 * Pow10(k - 1)
  }

  /** A number from `10^k` up to `10^(k+1)` has `k + 1` decimal digits. */
  lemma {:induction false} NatToStringLength(n: nat, k: nat)
    requires Pow10(k) <= n < Pow10(k + 1)
    ensures |NatToString(n)| == k + 1
  {
    if k > 0 {
      var q := n / 10;
      assert n == 10 * q + n % 10;
      assert Pow10(k) == 10 * Pow10(k - 1);
      assert Pow10(k + 1) == 10 * Pow10(k);
      assert Pow10(k - 1) <= q < Pow10(k);
      NatToStringLength(q, k - 1);
    }
  }

  /** Decimal renderings of the same length are ordered as the numbers they render. */
  lemma {:induction false} NatToStringOrder(n: nat, m: nat)
    requires n < m && |NatToString(n)| == |NatToString(m)|
    ensures LexLess(NatToString(n), NatToString(m))
  {
    if m >= 10 {
      var pn := NatToString(n / 10);
      var pm := NatToString(m / 10);
      if n / 10 < m / 10 {
        NatToStringOrder(n / 10, m / 10);
        LexLessExtend(pn, pm, [Digit(n % 10)], [Digit(m % 10)]);
      } else {
        LexLessCommonPrefix(pn, [Digit(n % 10)], [Digit(m % 10)]);
      }
    }
  }
}
