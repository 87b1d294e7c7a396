/**
 * The string operations the game relies on, with Python's meaning:
 * `str.strip()`, `str.split(sep, 1)`, `str.split()`, the substring test
 * `pat in s`, and the decimal rendering `f"{i}"` used in agent names.
 */
module Text {

  /** Python's `str.isspace()` for one character: what `strip()` removes and `split()` splits on. */
  predicate IsSpace(c: char) {
    c == ' ' || ('\t' <= c <= '\r') || ('\U{1c}' <= c <= '\U{1f}')
    || c == '\U{85}' || c == '\U{a0}' || c == '\U{1680}'
    || ('\U{2000}' <= c <= '\U{200a}') || c == '\U{2028}' || c == '\U{2029}'
    || c == '\U{202f}' || c == '\U{205f}' || c == '\U{3000}'
  }

  /** `s.lstrip()`: drop the leading whitespace. */
  function TrimStart(s: string): (r: string)
    ensures |r| <= |s| && r == s[|s| - |r|..]
    ensures r == [] || !IsSpace(r[0])
    ensures forall i :: 0 <= i < |s| - |r| ==> IsSpace(s[i])
  {
    if s != [] && IsSpace(s[0]) then TrimStart(s[1..]) else s
  }

  /** `s.rstrip()`: drop the trailing whitespace. */
  function TrimEnd(s: string): (r: string)
    ensures |r| <= |s| && r == s[..|r|]
    ensures r == [] || !IsSpace(r[|r| - 1])
    ensures forall i :: |r| <= i < |s| ==> IsSpace(s[i])
  {
    if s != [] && IsSpace(s[|s| - 1]) then TrimEnd(s[..|s| - 1]) else s
  }

  /** `r` is `s` without its leading and trailing whitespace. */
  ghost predicate IsStripped(s: string, r: string) {
    exists lo, hi {:trigger s[lo..hi]} ::
      0 <= lo <= hi <= |s| && r == s[lo..hi]
      && (forall i :: 0 <= i < lo ==> IsSpace(s[i]))
      && (forall i :: hi <= i < |s| ==> IsSpace(s[i]))
  }

  /** `s.strip()`. */
  function Strip(s: string): (r: string)
    ensures IsStripped(s, r)
    ensures r == [] || (!IsSpace(r[0]) && !IsSpace(r[|r| - 1]))
  {
    var t := TrimStart(s);
    var r := TrimEnd(t);
    assert r == s[|s| - |t|..|s| - |t| + |r|];
    r
  }

  /** `s.split(sep, 1)`: one part when `sep` does not occur, else the text around its first occurrence. */
  function SplitOnce(s: string, sep: char): (parts: seq<string>)
    ensures sep !in s ==> parts == [s]
    ensures sep in s ==> |parts| == 2 && sep !in parts[0] && parts[0] + [sep] + parts[1] == s
  {
    if sep !in s then [s]
    else if s[0] == sep then [[], s[1..]]
    else
      var rest := SplitOnce(s[1..], sep);
      [[s[0]] + rest[0], rest[1]]
  }

  /** The length of the run of non-whitespace characters that starts `s`. */
  function WordLength(s: string): (n: nat)
    ensures n <= |s|
    ensures forall i :: 0 <= i < n ==> !IsSpace(s[i])
    ensures n == |s| || IsSpace(s[n])
  {
    if s == [] || IsSpace(s[0]) then 0 else 1 + WordLength(s[1..])
  }

  /** A non-empty run of characters none of which is whitespace. */
  predicate IsWord(w: string) {
    w != [] && forall i :: 0 <= i < |w| ==> !IsSpace(w[i])
  }

  /** `s.split()`: the maximal runs of non-whitespace characters, in order. */
  function Words(s: string): (ws: seq<string>)
    ensures forall w :: w in ws ==> IsWord(w)
    decreases |s|
  {
    var t := TrimStart(s);
    if t == [] then []
    else
      var n := WordLength(t);
      assert IsWord(t[..n]);
      [t[..n]] + Words(t[n..])
  }

  /** The characters of `s` that are not whitespace, in order. */
  function NonSpace(s: string): string {
    if s == [] then [] else (if IsSpace(s[0]) then [] else [s[0]]) + NonSpace(s[1..])
  }

  function Concat(ws: seq<string>): string {
    if ws == [] then [] else ws[0] + Concat(ws[1..])
  }

  lemma {:induction false} NonSpaceAppend(a: string, b: string)
    ensures NonSpace(a + b) == NonSpace(a) + NonSpace(b)
  {
    if a == [] {
      assert a + b == b;
    } else {
      var head := if IsSpace(a[0]) then [] else [a[0]];
      assert (a + b)[0] == a[0];
      assert (a + b)[1..] == a[1..] + b;
      NonSpaceAppend(a[1..], b);
      assert NonSpace(a + b) == head + (NonSpace(a[1..]) + NonSpace(b));
    }
  }

  lemma {:induction false} NonSpaceOfBlank(s: string)
    requires forall i :: 0 <= i < |s| ==> IsSpace(s[i])
    ensures NonSpace(s) == []
  {
    if s != [] {
      NonSpaceOfBlank(s[1..]);
    }
  }

  lemma {:induction false} NonSpaceOfWord(s: string)
    requires forall i :: 0 <= i < |s| ==> !IsSpace(s[i])
    ensures NonSpace(s) == s
  {
    if s != [] {
      NonSpaceOfWord(s[1..]);
    }
  }

  /** Leading whitespace contributes nothing to the non-whitespace text. */
  lemma NonSpaceAfterTrim(s: string)
    ensures NonSpace(TrimStart(s)) == NonSpace(s)
  {
    var t := TrimStart(s);
    var lead := s[..|s| - |t|];
    assert s == lead + t;
    NonSpaceAppend(lead, t);
    NonSpaceOfBlank(lead);
  }

  /** A leading run of non-whitespace is kept whole. */
  lemma NonSpaceAfterWord(t: string, n: nat)
    requires n <= |t| && forall i :: 0 <= i < n ==> !IsSpace(t[i])
    ensures NonSpace(t) == t[..n] + NonSpace(t[n..])
  {
    assert t == t[..n] + t[n..];
    NonSpaceAppend(t[..n], t[n..]);
    NonSpaceOfWord(t[..n]);
  }

  /** Splitting into words loses exactly the whitespace: the words laid end to end are the non-whitespace text. */
  lemma {:induction false} WordsCoverText(s: string)
    ensures Concat(Words(s)) == NonSpace(s)
    decreases |s|
  {
    var t := TrimStart(s);
    NonSpaceAfterTrim(s);
    if t != [] {
      var n := WordLength(t);
      var w, ws := t[..n], Words(t[n..]);
      NonSpaceAfterWord(t, n);
      WordsCoverText(t[n..]);
      assert Words(s) == [w] + ws;
      assert ([w] + ws)[1..] == ws;
    }
  }

  /**
   * The number of places in `s` where a word begins: a non-whitespace
   * character that follows whitespace, or that starts `s` when `atStart`.
   */
  function WordStarts(s: string, atStart: bool): nat
    decreases |s|
  {
    if s == [] then 0
    else (if atStart && !IsSpace(s[0]) then 1 else 0) + WordStarts(s[1..], IsSpace(s[0]))
  }

  /** Leading whitespace begins no word. */
  lemma {:induction false} WordStartsAfterTrim(s: string)
    ensures WordStarts(TrimStart(s), true) == WordStarts(s, true)
    decreases |s|
  {
    if s != [] && IsSpace(s[0]) {
      WordStartsAfterTrim(s[1..]);
    }
  }

  /** Inside a run of non-whitespace no word begins. */
  lemma {:induction false} WordStartsInRun(u: string, m: nat)
    requires m <= |u| && forall i :: 0 <= i < m ==> !IsSpace(u[i])
    ensures WordStarts(u, false) == WordStarts(u[m..], false)
    decreases m
  {
    if m > 0 {
      WordStartsInRun(u[1..], m - 1);
      assert u[1..][m - 1..] == u[m..];
    }
  }

  /** `split()` returns one word per place where a word begins, so the number of words is fixed by the text. */
  lemma {:induction false} WordsCount(s: string)
    ensures |Words(s)| == WordStarts(s, true)
    decreases |s|
  {
    var t := TrimStart(s);
    WordStartsAfterTrim(s);
    if t != [] {
      var n := WordLength(t);
      WordStartsInRun(t[1..], n - 1);
      assert t[1..][n - 1..] == t[n..];
      WordsCount(t[n..]);
      assert Words(s) == [t[..n]] + Words(t[n..]);
    }
  }

  /**
   * `split()` as a left-to-right scan: `word` is the word being read; a
   * non-whitespace character extends it, and whitespace or the end of the
   * text closes it, when it is not empty.
   */
  function Scan(s: string, word: string): seq<string>
    decreases |s|
  {
    if s == [] then (if word == [] then [] else [word])
    else if IsSpace(s[0]) then (if word == [] then [] else [word]) + Scan(s[1..], [])
    else Scan(s[1..], word + [s[0]])
  }

  /** Leading whitespace does not change the words. */
  lemma WordsSkipSpace(s: string)
    requires s != [] && IsSpace(s[0])
    ensures Words(s) == Words(s[1..])
  {
    assert TrimStart(s) == TrimStart(s[1..]);
  }

  /** A text that starts with a run of `n` non-whitespace characters begins with that word. */
  lemma WordsAtRun(s: string)
    requires s != [] && !IsSpace(s[0])
    ensures Words(s) == [s[..WordLength(s)]] + Words(s[WordLength(s)..])
  {
    assert TrimStart(s) == s;
  }

  /** Scanning between words splits the rest exactly as `split()` does. */
  lemma {:induction false} ScanBetweenWords(s: string)
    ensures Scan(s, []) == Words(s)
    decreases |s|, 1
  {
    if s != [] {
      if IsSpace(s[0]) {
        ScanBetweenWords(s[1..]);
        ScanSkipSpace(s);
      } else {
        ScanInWord(s[1..], [s[0]]);
        ScanStartWord(s);
      }
    }
  }

  /** Whitespace between words is skipped by both. */
  lemma ScanSkipSpace(s: string)
    requires s != [] && IsSpace(s[0])
    requires Scan(s[1..], []) == Words(s[1..])
    ensures Scan(s, []) == Words(s)
  {
    WordsSkipSpace(s);
  }

  /** A non-whitespace character between words starts the next word. */
  lemma ScanStartWord(s: string)
    requires s != [] && !IsSpace(s[0])
    requires Scan(s[1..], [s[0]]) == [[s[0]] + s[1..][..WordLength(s[1..])]] + Words(s[1..][WordLength(s[1..])..])
    ensures Scan(s, []) == Words(s)
  {
    ScanStarts(s);
    WordsOfFirstRun(s);
  }

  /** The words of `s` are its first run, read as the first character and then the rest of the run, and the words after it. */
  lemma WordsOfFirstRun(s: string)
    requires s != [] && !IsSpace(s[0])
    ensures Words(s) == [[s[0]] + s[1..][..WordLength(s[1..])]] + Words(s[1..][WordLength(s[1..])..])
  {
    RunSplit(s, WordLength(s));
    WordsAtRun(s);
  }

  /** A non-whitespace character between words starts a word of its own. */
  lemma ScanStarts(s: string)
    requires s != [] && !IsSpace(s[0])
    ensures Scan(s, []) == Scan(s[1..], [s[0]])
  {
    assert [] + [s[0]] == [s[0]];
  }

  lemma AppendAssociative(a: string, b: string, c: string)
    ensures a + b + c == a + (b + c)
  {
  }

  /** Cutting off the first character of a run of `n`. */
  lemma RunSplit(s: string, n: nat)
    requires 0 < n <= |s| && n == WordLength(s)
    ensures WordLength(s[1..]) == n - 1
    ensures [s[0]] + s[1..][..n - 1] == s[..n]
    ensures s[1..][n - 1..] == s[n..]
  {
    assert [s[0]] + s[1..][..n - 1] == s[..n];
  }

  /** Scanning inside the word `word` finishes it with the run that starts `s`, then splits the rest. */
  lemma {:induction false} ScanInWord(s: string, word: string)
    requires word != []
    ensures Scan(s, word) == [word + s[..WordLength(s)]] + Words(s[WordLength(s)..])
    decreases |s|, 0
  {
    if s == [] {
      assert word + s[..0] == word;
    } else if IsSpace(s[0]) {
      ScanBetweenWords(s[1..]);
      WordsSkipSpace(s);
      assert word + s[..0] == word && s[0..] == s;
    } else {
      var n, rest, longer := WordLength(s), s[1..], word + [s[0]];
      assert Scan(s, word) == Scan(rest, longer);
      ScanInWord(rest, longer);
      RunSplit(s, n);
      AppendAssociative(word, [s[0]], rest[..n - 1]);
    }
  }

  /** `pat` occurs in `s` starting at index `i`. */
  predicate OccursAt(s: string, pat: string, i: int) {
    0 <= i <= |s| - |pat| && s[i..i + |pat|] == pat
  }

  /** An occurrence past the start of `s` is an occurrence in `s[1..]`, one place earlier. */
  lemma OccursShift(s: string, pat: string, i: int)
    requires OccursAt(s, pat, i) && s[..|pat|] != pat
    ensures i > 0 && OccursAt(s[1..], pat, i - 1)
  {
    assert i != 0;
    var t := s[1..];
    assert |t[i - 1..i - 1 + |pat|]| == |pat|;
    assert t[i - 1..i - 1 + |pat|] == s[i..i + |pat|];
  }

  /** Python's `pat in s` for strings: `pat` occurs in `s` as a contiguous substring. */
  function Contains(s: string, pat: string): (r: bool)
    ensures r <==> exists i :: OccursAt(s, pat, i)
    decreases |s|
  {
    if |pat| > |s| then false
    else if s[..|pat|] == pat then
      assert OccursAt(s, pat, 0);
      true
    else
      var r := Contains(s[1..], pat);
      assert forall i :: OccursAt(s, pat, i) ==> i > 0 && OccursAt(s[1..], pat, i - 1) by {
        forall i | OccursAt(s, pat, i) ensures i > 0 && OccursAt(s[1..], pat, i - 1) {
          OccursShift(s, pat, i);
        }
      }
      if r then
        var j :| OccursAt(s[1..], pat, j);
        assert OccursAt(s, pat, j + 1);
        r
      else r
  }

  function DigitChar(d: nat): (c: char)
    requires d < 10
    ensures '0' <= c <= '9' && c as int - '0' as int == d
  {
    ('0' as int + d) as char
  }

  predicate IsDigits(s: string) {
    forall i :: 0 <= i < |s| ==> '0' <= s[i] <= '9'
  }

  /** `str(n)`: the decimal digits of `n` with no leading zeros. */
  function Decimal(n: nat): (s: string)
    ensures s != [] && IsDigits(s)
    ensures s[0] == '0' ==> n == 0
  {
    if n < 10 then [DigitChar(n)] else Decimal(n / 10) + [DigitChar(n % 10)]
  }

  /** The number a string of decimal digits denotes. */
  function DecimalValue(s: string): nat
    requires IsDigits(s)
  {
    if s == [] then 0 else DecimalValue(s[..|s| - 1]) * 10 + (s[|s| - 1] as int - '0' as int)
  }

  /** Reading back the decimal rendering gives the number: the rendering is injective. */
  lemma {:induction false} DecimalRoundTrip(n: nat)
    ensures DecimalValue(Decimal(n)) == n
  {
    if n >= 10 {
      var s := Decimal(n);
      assert s[..|s| - 1] == Decimal(n / 10);
      DecimalRoundTrip(n / 10);
    }
  }

  /** A digit string that does not start with `0` denotes a positive number. */
  lemma {:induction false} LeadingDigitPositive(s: string)
    requires s != [] && IsDigits(s) && s[0] != '0'
    ensures DecimalValue(s) > 0
  {
    if |s| > 1 {
      LeadingDigitPositive(s[..|s| - 1]);
    }
  }

  /**
   * `str(n)` is the only way to write `n` in decimal without leading zeros:
   * any such digit string that denotes `n` is `Decimal(n)`.
   */
  lemma {:induction false} DecimalUnique(s: string, n: nat)
    requires s != [] && IsDigits(s) && (s[0] == '0' ==> |s| == 1)
    requires DecimalValue(s) == n
    ensures s == Decimal(n)
  {
    var init, d := s[..|s| - 1], s[|s| - 1] as int - '0' as int;
    if |s| == 1 {
      assert n == d;
    } else {
      assert init[0] == s[0];
      LeadingDigitPositive(init);
      assert n / 10 == DecimalValue(init) && n % 10 == d;
      DecimalUnique(init, n / 10);
      assert s == init + [s[|s| - 1]];
    }
  }
}
