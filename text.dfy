/** String handling shared by the task store and the Task initializer:
    Foundation's `.whitespacesAndNewlines` set, `trimmingCharacters(in:)`,
    `components(separatedBy:)` followed by dropping empty fragments and
    `joined(separator: " ")`, and `lowercased()`.
    Strings are sequences of Unicode scalar values. */
module Text {

  /** The character set `.whitespacesAndNewlines`: U+0009 to U+000D, U+0085
      and the Unicode categories Zs, Zl and Zp. */
  predicate IsWhitespace(c: char) {
    ('\t' <= c <= '\r') || c == ' ' || c == '\U{0085}' || c == '\U{00A0}' ||
    c == '\U{1680}' || ('\U{2000}' <= c <= '\U{200A}') || c == '\U{2028}' ||
    c == '\U{2029}' || c == '\U{202F}' || c == '\U{205F}' || c == '\U{3000}'
  }

  /** Per-character lower-case mapping: ASCII letters and the basic Cyrillic
      block (U+0400 to U+042F), which covers the titles the app is written for. */
  function Lower(c: char): (d: char)
    ensures IsWhitespace(d) <==> IsWhitespace(c)
    ensures c == ' ' ==> d == ' '
  {
    if 'A' <= c <= 'Z' then (c as int + 32) as char
    else if '\U{0410}' <= c <= '\U{042F}' then (c as int + 32) as char
    else if '\U{0400}' <= c <= '\U{040F}' then (c as int + 80) as char
    else c
  }

  /** Lower-casing a lower-case character changes nothing. */
  lemma LowerIdempotent(c: char)
    ensures Lower(Lower(c)) == Lower(c)
  {
  }

  /** `lowercased()`, character by character. */
  function Lowercased(s: string): (r: string)
    ensures |r| == |s|
    ensures forall i :: 0 <= i < |s| ==> r[i] == Lower(s[i])
  {
    if s == [] then [] else [Lower(s[0])] + Lowercased(s[1..])
  }

  predicate NoWhitespace(s: string) {
    forall i :: 0 <= i < |s| ==> !IsWhitespace(s[i])
  }

  predicate AllWhitespace(s: string) {
    forall i :: 0 <= i < |s| ==> IsWhitespace(s[i])
  }

  /** Every character of `s` from position `lo` up to, not including, `hi`
      is whitespace. */
  predicate WhitespaceBetween(s: string, lo: int, hi: int)
    requires 0 <= lo <= hi <= |s|
  {
    forall k :: lo <= k < hi ==> IsWhitespace(s[k])
  }

  /** Neither end of `s` is whitespace. */
  predicate Trimmed(s: string) {
    s == [] || (!IsWhitespace(s[0]) && !IsWhitespace(s[|s| - 1]))
  }

  // ---------------------------------------------------------------------------
  // trimmingCharacters(in: .whitespacesAndNewlines)
  // ---------------------------------------------------------------------------

  /** The number of whitespace characters `s` starts with. */
  function LeadingBlanks(s: string): (n: nat)
    ensures n <= |s| && WhitespaceBetween(s, 0, n)
    ensures n < |s| ==> !IsWhitespace(s[n])
  {
    if s != [] && IsWhitespace(s[0]) then
      var n := 1 + LeadingBlanks(s[1..]);
      assert forall k :: 1 <= k < n ==> s[k] == s[1..][k - 1];
      n
    else 0
  }

  /** The number of whitespace characters `s` ends with. */
  function TrailingBlanks(s: string): (n: nat)
    ensures n <= |s| && WhitespaceBetween(s, |s| - n, |s|)
    ensures n < |s| ==> !IsWhitespace(s[|s| - n - 1])
  {
    if s != [] && IsWhitespace(s[|s| - 1]) then
      var n := 1 + TrailingBlanks(s[..|s| - 1]);
      assert forall k :: |s| - n <= k < |s| - 1 ==> s[k] == s[..|s| - 1][k];
      n
    else 0
  }

  /** `s` with whitespace removed from both ends: the part of `s` after its
      leading whitespace and before its trailing whitespace, without
      whitespace at either end. */
  function Trim(s: string): (r: string)
    ensures Trimmed(r)
    ensures LeadingBlanks(s) + |r| <= |s| && WhitespaceBetween(s, LeadingBlanks(s) + |r|, |s|)
    ensures s == s[..LeadingBlanks(s)] + r + s[LeadingBlanks(s) + |r|..]
  {
    var lo := LeadingBlanks(s);
    if lo == |s| then []
    else
      var hi := |s| - TrailingBlanks(s);
      assert lo < hi by { assert !IsWhitespace(s[lo]); }
      s[lo..hi]
  }


  // ---------------------------------------------------------------------------
  // components(separatedBy:), filter { !$0.isEmpty }, joined(separator: " ")
  // ---------------------------------------------------------------------------

  /** Every whitespace character separates two fragments, so a run of k
      whitespace characters yields k - 1 empty fragments between its
      neighbours, and a leading or trailing one an empty fragment at the end. */
  function Split(s: string): (parts: seq<string>)
    ensures |parts| >= 1 && Fragments(parts)
  {
    if s == [] then [[]]
    else
      var rest := Split(s[1..]);
      if IsWhitespace(s[0]) then
        assert forall i :: 1 <= i < |rest| + 1 ==> ([[]] + rest)[i] == rest[i - 1];
        [[]] + rest
      else
        var first := [s[0]] + rest[0];
        assert NoWhitespace(first) by {
          forall k | 0 <= k < |first| ensures !IsWhitespace(first[k]) {
            if k > 0 { assert first[k] == rest[0][k - 1]; }
          }
        }
        assert forall i :: 1 <= i < |rest| ==> ([first] + rest[1..])[i] == rest[i];
        [first] + rest[1..]
  }

  /** None of the strings contains whitespace. */
  predicate Fragments(ps: seq<string>) {
    forall i :: 0 <= i < |ps| ==> NoWhitespace(ps[i])
  }

  /** None of the strings is empty. */
  predicate AllNonEmpty(ps: seq<string>) {
    forall i :: 0 <= i < |ps| ==> ps[i] != []
  }

  /** The fragments that are not empty, in their order. */
  function NonEmpty(parts: seq<string>): (r: seq<string>)
    ensures |r| <= |parts| && AllNonEmpty(r)
    ensures Fragments(parts) ==> Fragments(r)
  {
    if parts == [] then []
    else
      var rest := NonEmpty(parts[1..]);
      if parts[0] == [] then rest
      else
        assert forall i :: 1 <= i < |rest| + 1 ==> ([parts[0]] + rest)[i] == rest[i - 1];
        [parts[0]] + rest
  }

  /** A list of words: non-empty strings without whitespace. */
  predicate IsWordList(ws: seq<string>) {
    Fragments(ws) && AllNonEmpty(ws)
  }

  /** The maximal runs of non-whitespace characters of `s`, in order. */
  function Words(s: string): (ws: seq<string>)
    ensures IsWordList(ws)
  {
    NonEmpty(Split(s))
  }

  /** `joined(separator: " ")`. */
  function Join(ws: seq<string>): string {
    if ws == [] then []
    else if |ws| == 1 then ws[0]
    else ws[0] + " " + Join(ws[1..])
  }

  /** The words of `s` separated by single spaces. */
  function Compact(s: string): string {
    Join(Words(s))
  }

  /** The comparison key of a title: its words, separated by single spaces,
      in lower case. */
  function Normalized(s: string): string {
    Lowercased(Compact(s))
  }

  /** The only whitespace is the single space, which is neither first nor
      last and never follows another space. */
  ghost predicate Canonical(t: string) {
    (forall i :: 0 <= i < |t| && IsWhitespace(t[i]) ==> t[i] == ' ') &&
    (t != [] ==> t[0] != ' ' && t[|t| - 1] != ' ') &&
    (forall i, j :: 0 <= i && j == i + 1 && j < |t| ==> t[i] != ' ' || t[j] != ' ')
  }

  // ---------------------------------------------------------------------------
  // Trimming
  // ---------------------------------------------------------------------------

  lemma TrimOfTrimmed(s: string)
    requires Trimmed(s)
    ensures Trim(s) == s
  {
  }

  /** Trimming twice is trimming once. */
  lemma TrimIdempotent(s: string)
    ensures Trim(Trim(s)) == Trim(s)
  {
    TrimOfTrimmed(Trim(s));
  }

  /** Trimming yields the empty string exactly when `s` is all whitespace. */
  lemma TrimEmptyIff(s: string)
    ensures Trim(s) == [] <==> AllWhitespace(s)
  {
    var r, i := Trim(s), LeadingBlanks(s);
    if r != [] {
      assert r[0] == s[i];
    }
  }

  /** A canonical string has no whitespace at either end. */
  lemma CanonicalTrimmed(t: string)
    requires Canonical(t)
    ensures Trimmed(t)
  {
    if t != [] {
      assert !IsWhitespace(t[0]) && !IsWhitespace(t[|t| - 1]);
    }
  }

  // ---------------------------------------------------------------------------
  // Splitting and joining
  // ---------------------------------------------------------------------------

  /** One step of splitting: a whitespace character starts a new fragment,
      any other character joins the first fragment of the rest. */
  lemma SplitCons(c: char, t: string)
    ensures Split([c] + t) == if IsWhitespace(c) then [[]] + Split(t)
                              else [[c] + Split(t)[0]] + Split(t)[1..]
  {
    assert ([c] + t)[0] == c && ([c] + t)[1..] == t;
  }

  /** Splitting a word followed by `b` glues the word to the first fragment of `b`. */
  lemma {:induction false} SplitWordPrefix(a: string, b: string)
    requires NoWhitespace(a)
    ensures Split(a + b) == [a + Split(b)[0]] + Split(b)[1..]
    decreases |a|
  {
    if a == [] {
      assert a + b == b && a + Split(b)[0] == Split(b)[0];
      assert Split(b) == [Split(b)[0]] + Split(b)[1..];
    } else {
      var c, rest := a[0], a[1..];
      assert !IsWhitespace(c);
      assert a + b == [c] + (rest + b);
      SplitCons(c, rest + b);
      SplitWordPrefix(rest, b);
      assert [c] + (rest + Split(b)[0]) == a + Split(b)[0];
    }
  }

  lemma SplitAfterSpace(b: string)
    ensures Split([' '] + b) == [[]] + Split(b)
  {
    SplitCons(' ', b);
  }

  lemma {:induction false} NonEmptyAppend(x: seq<string>, y: seq<string>)
    ensures NonEmpty(x + y) == NonEmpty(x) + NonEmpty(y)
    decreases |x|
  {
    if x != [] {
      assert (x + y)[0] == x[0];
      assert (x + y)[1..] == x[1..] + y;
      NonEmptyAppend(x[1..], y);
      if x[0] != [] {
        assert NonEmpty(x + y) == [x[0]] + NonEmpty(x[1..] + y);
        assert NonEmpty(x) == [x[0]] + NonEmpty(x[1..]);
      }
    } else {
      assert x + y == y;
    }
  }

  lemma {:induction false} NonEmptyOfWords(ws: seq<string>)
    requires AllNonEmpty(ws)
    ensures NonEmpty(ws) == ws
    decreases |ws|
  {
    if ws != [] {
      assert ws[0] != [];
      assert AllNonEmpty(ws[1..]) by {
        assert forall i :: 0 <= i < |ws| - 1 ==> ws[1..][i] == ws[i + 1];
      }
      NonEmptyOfWords(ws[1..]);
      assert ws == [ws[0]] + ws[1..];
    }
  }

  /** The words after the first one still form a word list. */
  lemma WordListTail(ws: seq<string>)
    requires IsWordList(ws) && ws != []
    ensures IsWordList(ws[1..]) && ws[0] != [] && NoWhitespace(ws[0])
  {
    assert forall i :: 0 <= i < |ws| - 1 ==> ws[1..][i] == ws[i + 1];
  }

  lemma JoinCons(w: string, ws: seq<string>)
    requires ws != []
    ensures Join([w] + ws) == w + " " + Join(ws)
  {
    assert ([w] + ws)[1..] == ws;
  }

  /** Splitting the words joined by single spaces gives the words back. */
  lemma {:induction false} WordsOfJoin(ws: seq<string>)
    requires IsWordList(ws)
    ensures Words(Join(ws)) == ws
    decreases |ws|
  {
    if ws == [] {
    } else if |ws| == 1 {
      WordListTail(ws);
      SplitWordPrefix(ws[0], []);
      assert ws[0] + [] == ws[0];
      assert ws == [ws[0]];
    } else {
      var w, j := ws[0], Join(ws[1..]);
      assert Join(ws) == w + " " + j;
      assert w + " " + j == w + ([' '] + j);
      WordListTail(ws);
      SplitWordPrefix(w, [' '] + j);
      SplitAfterSpace(j);
      assert Split([' '] + j)[1..] == Split(j);
      assert w + Split([' '] + j)[0] == w;
      assert Split(Join(ws)) == [w] + Split(j);
      NonEmptyAppend([w], Split(j));
      WordsOfJoin(ws[1..]);
      assert ws == [w] + ws[1..];
    }
  }

  /** A word, a space and a non-empty canonical string make a canonical string. */
  lemma CanonicalCons(w: string, j: string)
    requires w != [] && NoWhitespace(w)
    requires j != [] && Canonical(j)
    ensures Canonical(w + " " + j)
  {
    var t := w + " " + j;
    forall i | 0 <= i < |t| && IsWhitespace(t[i]) ensures t[i] == ' ' {
      if i > |w| { assert t[i] == j[i - |w| - 1]; }
    }
    assert t[0] == w[0] && t[|t| - 1] == j[|j| - 1];
    forall i, k | 0 <= i && k == i + 1 && k < |t| ensures t[i] != ' ' || t[k] != ' ' {
      if i < |w| {
        assert t[i] == w[i];
      } else if i == |w| {
        assert t[k] == j[0];
      } else {
        assert t[i] == j[i - |w| - 1] && t[k] == j[k - |w| - 1];
      }
    }
  }

  /** Joining words with single spaces yields a canonical string, empty only
      for no words. */
  lemma {:induction false} JoinCanonical(ws: seq<string>)
    requires IsWordList(ws)
    ensures Canonical(Join(ws))
    ensures Join(ws) == [] <==> ws == []
    decreases |ws|
  {
    if ws != [] {
      WordListTail(ws);
      if |ws| > 1 {
        JoinCanonical(ws[1..]);
        CanonicalCons(ws[0], Join(ws[1..]));
      }
    }
  }

  /** `s` with every whitespace character replaced by a space. */
  function Spaced(s: string): (r: string)
    ensures |r| == |s|
    ensures forall i :: 0 <= i < |s| ==> r[i] == if IsWhitespace(s[i]) then ' ' else s[i]
  {
    if s == [] then [] else [if IsWhitespace(s[0]) then ' ' else s[0]] + Spaced(s[1..])
  }

  /** Joining the fragments of `s` with single spaces gives `s` back, with
      every whitespace character replaced by a space. */
  /** Joining behind an empty first fragment adds one leading space. */
  lemma JoinBlankHead(rest: seq<string>)
    requires rest != []
    ensures Join([[]] + rest) == [' '] + Join(rest)
  {
    JoinCons([], rest);
  }

  /** Prefixing the first fragment with `c` prefixes the joined text with `c`. */
  lemma JoinExtendHead(c: char, rest: seq<string>)
    requires rest != []
    ensures Join([[c] + rest[0]] + rest[1..]) == [c] + Join(rest)
  {
    if |rest| > 1 {
      JoinCons([c] + rest[0], rest[1..]);
      JoinCons(rest[0], rest[1..]);
      assert rest == [rest[0]] + rest[1..];
    }
  }

  lemma {:induction false} JoinSplit(s: string)
    ensures Join(Split(s)) == Spaced(s)
    decreases |s|
  {
    if s != [] {
      var c, t := s[0], s[1..];
      assert s == [c] + t;
      SplitCons(c, t);
      JoinSplit(t);
      if IsWhitespace(c) {
        JoinBlankHead(Split(t));
      } else {
        JoinExtendHead(c, Split(t));
      }
    }
  }

  /** No fragment of a non-empty canonical string is empty. */
  lemma {:induction false} CanonicalFragments(t: string)
    requires Canonical(t) && t != []
    ensures AllNonEmpty(Split(t))
    decreases |t|
  {
    var u := t[1..];
    assert !IsWhitespace(t[0]);
    assert t == [t[0]] + u;
    SplitCons(t[0], u);
    if u == [] {
    } else if u[0] == ' ' {
      var v := u[1..];
      assert u == [' '] + v;
      SplitAfterSpace(v);
      assert v != [] by { assert t[|t| - 1] != ' '; }
      assert Canonical(v) by {
        forall i, k | 0 <= i && k == i + 1 && k < |v| ensures v[i] != ' ' || v[k] != ' ' {
          assert v[i] == t[i + 2] && v[k] == t[k + 2];
        }
        assert v[0] == t[2];
        assert t[1] == ' ';
      }
      CanonicalFragments(v);
      assert forall i :: 1 <= i < |Split(u)| ==> Split(u)[i] == Split(v)[i - 1];
      assert forall i :: 1 <= i < |Split(t)| ==> Split(t)[i] == Split(u)[i];
    } else {
      assert Canonical(u) by {
        forall i, k | 0 <= i && k == i + 1 && k < |u| ensures u[i] != ' ' || u[k] != ' ' {
          assert u[i] == t[i + 1] && u[k] == t[k + 1];
        }
      }
      CanonicalFragments(u);
      assert forall i :: 1 <= i < |Split(t)| ==> Split(t)[i] == Split(u)[i];
    }
  }

  // ---------------------------------------------------------------------------
  // Compaction
  // ---------------------------------------------------------------------------

  /** Compaction leaves no whitespace but single inner spaces. */
  lemma CompactCanonical(s: string)
    ensures Canonical(Compact(s))
  {
    JoinCanonical(Words(s));
  }

  /** Compaction keeps the words of `s`, in order. */
  lemma CompactKeepsWords(s: string)
    ensures Words(Compact(s)) == Words(s)
  {
    WordsOfJoin(Words(s));
  }

  /** The canonical strings are exactly the fixed points of compaction. */
  lemma CompactFixedIff(t: string)
    ensures Compact(t) == t <==> Canonical(t)
  {
    if Canonical(t) {
      if t == [] {
      } else {
        CanonicalFragments(t);
        NonEmptyOfWords(Split(t));
        JoinSplit(t);
        assert Spaced(t) == t;
      }
    } else {
      CompactCanonical(t);
    }
  }

  /** Compacting twice is compacting once. */
  lemma CompactIdempotent(s: string)
    ensures Compact(Compact(s)) == Compact(s)
  {
    CompactCanonical(s);
    CompactFixedIff(Compact(s));
  }

  /** `s` has no words exactly when it is all whitespace. */
  lemma {:induction false} WordsEmptyIff(s: string)
    ensures Words(s) == [] <==> AllWhitespace(s)
    decreases |s|
  {
    if s != [] {
      WordsEmptyIff(s[1..]);
      var rest := Split(s[1..]);
      if IsWhitespace(s[0]) {
        NonEmptyAppend([[]], rest);
        assert Words(s) == Words(s[1..]);
        assert AllWhitespace(s) <==> AllWhitespace(s[1..]) by {
          if AllWhitespace(s[1..]) {
            forall k | 0 <= k < |s| ensures IsWhitespace(s[k]) {
              if k > 0 { assert s[k] == s[1..][k - 1]; }
            }
          }
        }
      } else {
        assert Split(s)[0] != [];
      }
    }
  }

  /** `n` empty fragments. */
  function Blanks(n: nat): (r: seq<string>)
    ensures |r| == n && forall i :: 0 <= i < n ==> r[i] == []
  {
    if n == 0 then [] else [[]] + Blanks(n - 1)
  }

  /** An all-whitespace string splits into one more empty fragment than it
      has characters. */
  lemma {:induction false} SplitBlank(w: string)
    requires AllWhitespace(w)
    ensures Split(w) == Blanks(|w| + 1)
    decreases |w|
  {
    if w != [] {
      assert IsWhitespace(w[0]);
      assert AllWhitespace(w[1..]) by {
        forall k | 0 <= k < |w[1..]| ensures IsWhitespace(w[1..][k]) {
          assert w[1..][k] == w[k + 1];
        }
      }
      SplitBlank(w[1..]);
    }
  }

  /** Trailing whitespace only adds empty fragments at the end. */
  lemma {:induction false} SplitTrailingBlank(s: string, w: string)
    requires AllWhitespace(w)
    ensures Split(s + w) == Split(s) + Blanks(|w|)
    decreases |s|
  {
    if s == [] {
      assert s + w == w;
      SplitBlank(w);
    } else {
      var c, rest := s[0], s[1..];
      assert s == [c] + rest && s + w == [c] + (rest + w);
      SplitCons(c, rest + w);
      SplitCons(c, rest);
      SplitTrailingBlank(rest, w);
      var q := Split(rest);
      assert (q + Blanks(|w|))[0] == q[0];
      assert (q + Blanks(|w|))[1..] == q[1..] + Blanks(|w|);
    }
  }

  lemma {:induction false} NonEmptyBlanks(n: nat)
    ensures NonEmpty(Blanks(n)) == []
    decreases n
  {
    if n > 0 {
      assert Blanks(n)[1..] == Blanks(n - 1);
      NonEmptyBlanks(n - 1);
    }
  }

  /** Leading whitespace does not change the words. */
  lemma {:induction false} WordsLeadingBlank(w: string, s: string)
    requires AllWhitespace(w)
    ensures Words(w + s) == Words(s)
    decreases |w|
  {
    if w != [] {
      assert (w + s)[0] == w[0] && IsWhitespace(w[0]);
      assert (w + s)[1..] == w[1..] + s;
      assert Split(w + s) == [[]] + Split(w[1..] + s);
      assert AllWhitespace(w[1..]) by {
        forall k | 0 <= k < |w[1..]| ensures IsWhitespace(w[1..][k]) {
          assert w[1..][k] == w[k + 1];
        }
      }
      WordsLeadingBlank(w[1..], s);
    } else {
      assert w + s == s;
    }
  }

  /** Trailing whitespace does not change the words. */
  lemma WordsTrailingBlank(s: string, w: string)
    requires AllWhitespace(w)
    ensures Words(s + w) == Words(s)
  {
    SplitTrailingBlank(s, w);
    NonEmptyAppend(Split(s), Blanks(|w|));
    NonEmptyBlanks(|w|);
  }

  /** Whitespace around a string does not change its words. */
  lemma WordsSurrounded(a: string, r: string, b: string)
    requires AllWhitespace(a) && AllWhitespace(b)
    ensures Words(a + r + b) == Words(r)
  {
    assert a + r + b == a + (r + b);
    WordsLeadingBlank(a, r + b);
    WordsTrailingBlank(r, b);
  }

  /** A run of whitespace after a word ends that word: the words of the
      whole are the word followed by the words of the rest. */
  lemma WordsSeparated(a: string, w: string, b: string)
    requires a != [] && NoWhitespace(a) && w != [] && AllWhitespace(w)
    ensures Words(a + w + b) == [a] + Words(b)
  {
    assert a + w + b == a + (w + b);
    SplitWordPrefix(a, w + b);
    assert w + b == [w[0]] + (w[1..] + b);
    SplitCons(w[0], w[1..] + b);
    assert a + [] == a;
    NonEmptyAppend([a], Split(w[1..] + b));
    assert AllWhitespace(w[1..]) by {
      forall k | 0 <= k < |w[1..]| ensures IsWhitespace(w[1..][k]) {
        assert w[1..][k] == w[k + 1];
      }
    }
    WordsLeadingBlank(w[1..], b);
  }

  /** A slice of `s` with only whitespace around it in `s` has the words of `s`. */
  lemma WordsOfInnerSlice(s: string, r: string, i: nat)
    requires i <= |s| - |r| && r == s[i..i + |r|]
    requires WhitespaceBetween(s, 0, i) && WhitespaceBetween(s, i + |r|, |s|)
    ensures Words(r) == Words(s)
  {
    var a, b := s[..i], s[i + |r|..];
    assert s == a + r + b;
    assert forall k :: 0 <= k < |b| ==> b[k] == s[i + |r| + k];
    WordsSurrounded(a, r, b);
  }

  /** Trimming before compaction changes nothing: compaction drops the outer
      whitespace itself. */
  lemma CompactTrim(s: string)
    ensures Words(Trim(s)) == Words(s)
    ensures Compact(Trim(s)) == Compact(s)
  {
    var r, i := Trim(s), LeadingBlanks(s);
    assert r == (s[..i] + r + s[i + |r|..])[i..i + |r|];
    WordsOfInnerSlice(s, r, i);
  }

  /** Compaction yields the empty string exactly when `s` is all whitespace. */
  lemma CompactEmptyIff(s: string)
    ensures Compact(s) == [] <==> AllWhitespace(s)
  {
    WordsEmptyIff(s);
    JoinCanonical(Words(s));
  }

  // ---------------------------------------------------------------------------
  // The comparison key
  // ---------------------------------------------------------------------------

  lemma LowercasedCanonical(t: string)
    requires Canonical(t)
    ensures Canonical(Lowercased(t))
  {
    var r := Lowercased(t);
    forall i, k | 0 <= i && k == i + 1 && k < |r| ensures r[i] != ' ' || r[k] != ' ' {
      assert t[i] != ' ' || t[k] != ' ';
    }
  }

  /** The key has no leading or trailing space, no two consecutive spaces and
      no whitespace other than the space. */
  lemma NormalizedCanonical(s: string)
    ensures Canonical(Normalized(s))
  {
    CompactCanonical(s);
    LowercasedCanonical(Compact(s));
  }

  /** Two words around a run of whitespace compact to the two words around
      one space. */
  lemma CompactTwoWords(a: string, w: string, b: string)
    requires a != [] && NoWhitespace(a) && w != [] && AllWhitespace(w)
    requires b != [] && NoWhitespace(b)
    ensures Compact(a + w + b) == a + " " + b
  {
    WordsSeparated(a, w, b);
    assert IsWordList([b]);
    WordsOfJoin([b]);
    assert Join([a, b]) == a + " " + Join([b]);
  }

  lemma LowercasedAppend(x: string, y: string)
    ensures Lowercased(x + y) == Lowercased(x) + Lowercased(y)
  {
  }

  /** The key of a title made of two words, `s[..i]` and `s[j..]`, around the
      whitespace `s[i..j]`: both words in lower case around one space. */
  lemma NormalizedTwoWords(s: string, i: nat, j: nat)
    requires 0 < i < j < |s|
    requires NoWhitespace(s[..i]) && AllWhitespace(s[i..j]) && NoWhitespace(s[j..])
    ensures Normalized(s) == Lowercased(s[..i]) + " " + Lowercased(s[j..])
  {
    assert s == s[..i] + s[i..j] + s[j..];
    CompactTwoWords(s[..i], s[i..j], s[j..]);
    LowercasedAppend(s[..i] + " ", s[j..]);
    LowercasedAppend(s[..i], " ");
  }

  /** Whitespace before and after a title does not change its key. */
  lemma NormalizedSurrounded(s: string, i: nat, j: nat)
    requires i <= j <= |s| && AllWhitespace(s[..i]) && AllWhitespace(s[j..])
    ensures Normalized(s) == Normalized(s[i..j])
  {
    assert s == s[..i] + s[i..j] + s[j..];
    WordsSurrounded(s[..i], s[i..j], s[j..]);
  }

  /** The key of a key is the key itself. */
  lemma NormalizedIdempotent(s: string)
    ensures Normalized(Normalized(s)) == Normalized(s)
  {
    var k := Normalized(s);
    NormalizedCanonical(s);
    CompactFixedIff(k);
    forall i | 0 <= i < |k| ensures Lower(k[i]) == k[i] {
      LowerIdempotent(Compact(s)[i]);
    }
    assert Lowercased(k) == k;
  }
}
