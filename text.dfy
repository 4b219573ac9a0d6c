/** The string operations of Python's `str` that the translator relies on:
    `split("\n")`, `strip()` used as a truth value, `lower()`, `endswith`
    and `replace`, each stated over `seq<char>`. */
module Text {

  datatype Option<+T> = None | Some(value: T)

  /** Python's `str.isspace()` for one character: the Unicode whitespace
      that `str.strip()` removes when given no argument. */
  predicate IsSpace(c: char) {
    var n := c as int;
    n == 0x20 || (0x09 <= n <= 0x0D) || (0x1C <= n <= 0x1F) || n == 0x85 || n == 0xA0 ||
    n == 0x1680 || (0x2000 <= n <= 0x200A) || n == 0x2028 || n == 0x2029 ||
    n == 0x202F || n == 0x205F || n == 0x3000
  }

  /** `not s.strip()`: the string is empty or made of whitespace only. */
  predicate IsBlank(s: string) {
    forall i :: 0 <= i < |s| ==> IsSpace(s[i])
  }

  /** `s.lstrip()`: drops the whitespace at the front. What is left is a
      suffix of `s` that starts with a non-space, and everything dropped was
      whitespace. */
  function LStrip(s: string): (r: string)
    ensures |r| <= |s| && r == s[|s| - |r|..]
    ensures |r| > 0 ==> !IsSpace(r[0])
    ensures forall i :: 0 <= i < |s| - |r| ==> IsSpace(s[i])
    decreases |s|
  {
    if |s| > 0 && IsSpace(s[0]) then LStrip(s[1..]) else s
  }

  /** `s.rstrip()`: drops the whitespace at the end. What is left is a
      prefix of `s` that ends with a non-space, and everything dropped was
      whitespace. */
  function RStrip(s: string): (r: string)
    ensures |r| <= |s| && r == s[..|r|]
    ensures |r| > 0 ==> !IsSpace(r[|r| - 1])
    ensures forall i :: |r| <= i < |s| ==> IsSpace(s[i])
    decreases |s|
  {
    if |s| > 0 && IsSpace(s[|s| - 1]) then RStrip(s[..|s| - 1]) else s
  }

  /** `s.strip()`. */
  function Strip(s: string): string {
    RStrip(LStrip(s))
  }

  /** `strip()` leaves nothing exactly when the string is blank, so
      `IsBlank` is the truth value of `not s.strip()`. */
  lemma BlankIffStripEmpty(s: string)
    ensures Strip(s) == "" <==> IsBlank(s)
  {
  }

  /** `s.split("\n")`: the pieces between newline characters, in order.
      There is always one more piece than there are newlines, and no piece
      holds a newline. */
  function Split(s: string): (r: seq<string>)
    ensures |r| == Count(s, '\n') + 1
    ensures forall k :: 0 <= k < |r| ==> '\n' !in r[k]
  {
    if |s| == 0 then [""]
    else if s[0] == '\n' then [""] + Split(s[1..])
    else
      var rest := Split(s[1..]);
      [[s[0]] + rest[0]] + rest[1..]
  }

  /** Number of occurrences of `c` in `s`. */
  function Count(s: string, c: char): nat {
    if |s| == 0 then 0 else (if s[0] == c then 1 else 0) + Count(s[1..], c)
  }

  /** `sep.join(parts)`. */
  function Join(parts: seq<string>, sep: char): string {
    if |parts| == 0 then ""
    else if |parts| == 1 then parts[0]
    else parts[0] + [sep] + Join(parts[1..], sep)
  }

  /** Joining the pieces of a split with newlines gives back the text. */
  lemma {:induction false} JoinSplit(s: string)
    ensures Join(Split(s), '\n') == s
  {
    if |s| == 0 {
    } else if s[0] == '\n' {
      JoinSplit(s[1..]);
      assert s == [s[0]] + s[1..];
    } else {
      var rest := Split(s[1..]);
      JoinSplit(s[1..]);
      if |rest| == 1 {
      } else {
        assert Join(rest, '\n') == rest[0] + ['\n'] + Join(rest[1..], '\n');
        assert s == [s[0]] + s[1..];
      }
    }
  }

  /** Splitting a join of newline-free pieces gives back the pieces. */
  lemma {:induction false} SplitJoin(parts: seq<string>)
    requires |parts| >= 1
    requires forall k :: 0 <= k < |parts| ==> '\n' !in parts[k]
    ensures Split(Join(parts, '\n')) == parts
  {
    if |parts| == 1 {
      SplitNoNewline(parts[0]);
    } else {
      SplitJoin(parts[1..]);
      SplitAround(parts[0], Join(parts[1..], '\n'));
      SplitNoNewline(parts[0]);
      assert parts == [parts[0]] + parts[1..];
    }
  }

  /** A string without newlines splits into itself alone. */
  lemma {:induction false} SplitNoNewline(s: string)
    requires '\n' !in s
    ensures Split(s) == [s]
  {
    if |s| > 0 {
      assert '\n' !in s[1..] by {
        forall k | 0 <= k < |s[1..]| ensures s[1..][k] != '\n' { assert s[1..][k] == s[k + 1]; }
      }
      SplitNoNewline(s[1..]);
      assert s == [s[0]] + s[1..];
    }
  }

  /** A newline cuts a split in two: splitting `a`, a newline and `b` gives
      the split of `a` followed by the split of `b`. */
  lemma {:induction false} SplitAround(a: string, b: string)
    ensures Split(a + ['\n'] + b) == Split(a) + Split(b)
  {
    if |a| == 0 {
      assert a + ['\n'] + b == ['\n'] + b;
      SplitNewline(b);
    } else {
      var c, t := a[0], a[1..];
      assert a == [c] + t;
      assert a + ['\n'] + b == [c] + (t + ['\n'] + b);
      SplitAround(t, b);
      if c == '\n' {
        SplitNewline(t + ['\n'] + b);
        SplitNewline(t);
        assert [""] + (Split(t) + Split(b)) == ([""] + Split(t)) + Split(b);
      } else {
        SplitCons(c, t + ['\n'] + b);
        SplitCons(c, t);
        PrependHead([c], Split(t), Split(b));
      }
    }
  }

  /** An empty line between two texts: splitting `a`, two newlines and `b`
      gives the split of `a`, one empty piece, and the split of `b`. */
  lemma SplitGap(a: string, b: string)
    ensures Split(a + "\n\n" + b) == Split(a) + [""] + Split(b)
  {
    var rest := ['\n'] + b;
    assert a + "\n\n" + b == a + ['\n'] + rest;
    SplitAround(a, rest);
    SplitNewline(b);
    assert Split(a) + ([""] + Split(b)) == Split(a) + [""] + Split(b);
  }

  /** Splitting a string that starts with a newline puts an empty piece in
      front of the split of the rest. */
  lemma SplitNewline(t: string)
    ensures Split(['\n'] + t) == [""] + Split(t)
  {
    assert (['\n'] + t)[0] == '\n' && (['\n'] + t)[1..] == t;
  }

  /** Splitting a string that starts with a character other than a newline
      adds that character to the front of the first piece. */
  lemma SplitCons(c: char, t: string)
    requires c != '\n'
    ensures Split([c] + t) == [[c] + Split(t)[0]] + Split(t)[1..]
  {
    assert ([c] + t)[0] == c && ([c] + t)[1..] == t;
  }

  /** Extending the first of a non-empty list of pieces commutes with
      appending more pieces. */
  lemma PrependHead(h: string, xs: seq<string>, ys: seq<string>)
    requires |xs| > 0
    ensures [h + (xs + ys)[0]] + (xs + ys)[1..] == ([h + xs[0]] + xs[1..]) + ys
  {
  }

  /** The lines that are neither empty nor whitespace only, in order. */
  function NonBlank(lines: seq<string>): (r: seq<string>)
    ensures |r| <= |lines|
    ensures forall k :: 0 <= k < |r| ==> !IsBlank(r[k]) && r[k] in lines
  {
    if |lines| == 0 then []
    else if IsBlank(lines[0]) then NonBlank(lines[1..])
    else [lines[0]] + NonBlank(lines[1..])
  }

  /** Filtering distributes over concatenation. */
  lemma {:induction false} NonBlankAppend(a: seq<string>, b: seq<string>)
    ensures NonBlank(a + b) == NonBlank(a) + NonBlank(b)
  {
    if |a| == 0 {
      assert a + b == b;
    } else {
      var ab := a + b;
      assert ab[0] == a[0] && ab[1..] == a[1..] + b;
      NonBlankAppend(a[1..], b);
      if !IsBlank(a[0]) {
        assert NonBlank(ab) == [a[0]] + (NonBlank(a[1..]) + NonBlank(b));
        assert [a[0]] + (NonBlank(a[1..]) + NonBlank(b)) == ([a[0]] + NonBlank(a[1..])) + NonBlank(b);
      }
    }
  }

  /** The concatenation of a sequence of sequences, in order. */
  function Flatten<T>(parts: seq<seq<T>>): seq<T> {
    if |parts| == 0 then [] else parts[0] + Flatten(parts[1..])
  }

  lemma {:induction false} FlattenAppend<T>(a: seq<seq<T>>, b: seq<seq<T>>)
    ensures Flatten(a + b) == Flatten(a) + Flatten(b)
  {
    if |a| == 0 {
      assert a + b == b;
    } else {
      var ab := a + b;
      assert ab[0] == a[0] && ab[1..] == a[1..] + b;
      FlattenAppend(a[1..], b);
      calc {
        Flatten(ab);
        ab[0] + Flatten(ab[1..]);
        a[0] + (Flatten(a[1..]) + Flatten(b));
        (a[0] + Flatten(a[1..])) + Flatten(b);
      }
    }
  }

  /** A concatenation is blank exactly when both parts are. */
  lemma BlankAppend(s: string, t: string)
    ensures IsBlank(s + t) <==> IsBlank(s) && IsBlank(t)
  {
    forall i | 0 <= i < |s| ensures (s + t)[i] == s[i] { }
    forall i | 0 <= i < |t| ensures (s + t)[|s| + i] == t[i] { }
    if IsBlank(s) && IsBlank(t) {
      forall i | 0 <= i < |s + t| ensures IsSpace((s + t)[i]) {
        if i >= |s| { assert (s + t)[|s| + (i - |s|)] == t[i - |s|]; }
      }
    }
  }

  /** Python's `str.lower()` on one character, for the ASCII letters. */
  function LowerChar(c: char): char {
    if 'A' <= c <= 'Z' then (c as int + 32) as char else c
  }

  /** `s.lower()`, character by character. */
  function Lower(s: string): (r: string)
    ensures |r| == |s|
    ensures forall i :: 0 <= i < |s| ==> r[i] == LowerChar(s[i])
  {
    seq(|s|, i requires 0 <= i < |s| => LowerChar(s[i]))
  }

  /** `s.endswith(suffix)`. */
  predicate EndsWith(s: string, suffix: string) {
    |suffix| <= |s| && s[|s| - |suffix|..] == suffix
  }

  /** The check on upload names: the lower-cased name ends in ".pdf"
      exactly when the name ends in a dot followed by "pdf" in any mix of
      upper and lower case. */
  lemma LowerEndsWithPdf(s: string)
    ensures EndsWith(Lower(s), PdfExtension) <==>
      |s| >= 4 && s[|s| - 4] == '.' &&
      (s[|s| - 3] == 'p' || s[|s| - 3] == 'P') &&
      (s[|s| - 2] == 'd' || s[|s| - 2] == 'D') &&
      (s[|s| - 1] == 'f' || s[|s| - 1] == 'F')
  {
  }

  /** `s.startswith(prefix)`. */
  predicate StartsWith(s: string, prefix: string) {
    |prefix| <= |s| && s[..|prefix|] == prefix
  }

  /** `s.replace(pat, rep)`: scans left to right and replaces every
      non-overlapping occurrence of `pat`. */
  function Replace(s: string, pat: string, rep: string): (r: string)
    requires |pat| > 0
    ensures StartsWith(s, pat) ==> StartsWith(r, rep)
    ensures |rep| >= |pat| ==> |r| >= |s|
    decreases |s|
  {
    if |s| < |pat| then s
    else if s[..|pat|] == pat then rep + Replace(s[|pat|..], pat, rep)
    else [s[0]] + Replace(s[1..], pat, rep)
  }

  /** Whether `pat` occurs in `s` starting at index `i`. */
  predicate MatchAt(s: string, pat: string, i: int) {
    0 <= i <= |s| - |pat| && s[i..i + |pat|] == pat
  }

  /** Whether `pat` occurs anywhere in `s`. */
  predicate Occurs(s: string, pat: string) {
    exists i :: 0 <= i <= |s| && MatchAt(s, pat, i)
  }

  /** Without an occurrence of the pattern, `replace` changes nothing. */
  lemma {:induction false} ReplaceAbsent(s: string, pat: string, rep: string)
    requires |pat| > 0
    requires !Occurs(s, pat)
    ensures Replace(s, pat, rep) == s
    decreases |s|
  {
    if |s| >= |pat| {
      assert !MatchAt(s, pat, 0);
      assert s[0..|pat|] == s[..|pat|];
      assert !Occurs(s[1..], pat) by {
        forall i | 0 <= i <= |s[1..]| - |pat| ensures !MatchAt(s[1..], pat, i) {
          assert !MatchAt(s, pat, i + 1);
          assert s[1..][i..i + |pat|] == s[i + 1..i + 1 + |pat|];
        }
      }
      ReplaceAbsent(s[1..], pat, rep);
      assert s == [s[0]] + s[1..];
    }
  }

  /** The file extension the upload handlers look for. */
  const PdfExtension: string := ".pdf"

  /** An occurrence of `pat` at the very end is always replaced, and
      nothing else changes near it, when the first character of `pat` does
      not occur again in it: then no earlier occurrence can overlap the
      final one. */
  lemma {:induction false} ReplaceSuffix(s: string, pat: string, rep: string)
    requires |pat| > 0
    requires forall i :: 0 < i < |pat| ==> pat[i] != pat[0]
    ensures Replace(s + pat, pat, rep) == Replace(s, pat, rep) + rep
    decreases |s|
  {
    var u := s + pat;
    if |s| == 0 {
      assert u == pat && u[..|pat|] == pat && u[|pat|..] == "";
    } else if u[..|pat|] == pat {
      MatchBeforeSuffix(s, pat);
      ReplaceSuffix(s[|pat|..], pat, rep);
      assert Replace(u, pat, rep) == rep + Replace(s[|pat|..] + pat, pat, rep);
    } else {
      NoMatchBeforeSuffix(s, pat);
      ReplaceSuffix(s[1..], pat, rep);
      assert Replace(u, pat, rep) == [s[0]] + Replace(s[1..] + pat, pat, rep);
    }
  }

  /** A match at the front of `s + pat`, `s` non-empty, lies inside `s`. */
  lemma MatchBeforeSuffix(s: string, pat: string)
    requires |pat| > 0 && |s| > 0
    requires forall i :: 0 < i < |pat| ==> pat[i] != pat[0]
    requires (s + pat)[..|pat|] == pat
    ensures |s| >= |pat| && s[..|pat|] == pat
    ensures (s + pat)[|pat|..] == s[|pat|..] + pat
  {
    var u := s + pat;
    assert u[|s|] == pat[0];
    assert s[..|pat|] == u[..|pat|];
  }

  /** Without a match at the front of `s + pat`, `replace` keeps the first
      character of `s` and goes on with the rest. */
  lemma NoMatchBeforeSuffix(s: string, pat: string)
    requires |pat| > 0 && |s| > 0
    requires (s + pat)[..|pat|] != pat
    ensures (s + pat)[1..] == s[1..] + pat
    ensures forall rep :: Replace(s, pat, rep) == [s[0]] + Replace(s[1..], pat, rep)
  {
    forall rep ensures Replace(s, pat, rep) == [s[0]] + Replace(s[1..], pat, rep) {
      if |s| >= |pat| {
        assert s[..|pat|] == (s + pat)[..|pat|];
      } else {
        assert s == [s[0]] + s[1..];
      }
    }
  }

  /** The final ".pdf" of a name is always replaced: no proper prefix of
      ".pdf" is also a suffix of it. */
  lemma ReplacePdfSuffix(s: string, rep: string)
    ensures Replace(s + PdfExtension, PdfExtension, rep) == Replace(s, PdfExtension, rep) + rep
  {
    ReplaceSuffix(s, PdfExtension, rep);
  }

  /** A name ending in ".pdf" still ends in the replacement afterwards. */
  lemma ReplacePdfEnding(s: string, rep: string)
    ensures EndsWith(s, PdfExtension) ==> EndsWith(Replace(s, PdfExtension, rep), rep)
  {
    if EndsWith(s, PdfExtension) {
      var stem := s[..|s| - |PdfExtension|];
      assert s == stem + PdfExtension;
      ReplacePdfSuffix(stem, rep);
    }
  }
}
