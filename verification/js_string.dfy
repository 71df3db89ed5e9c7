/**
 * The few pieces of ECMAScript string behaviour the pages rely on: the
 * white-space class shared by String.prototype.trim and the regular
 * expression escape \s, trimming, and splitting on a one-character separator.
 * Strings are sequences of UTF-16 code units there; every character the
 * pages compare against lies in the Basic Multilingual Plane, so one Dafny
 * char stands for one code unit.
 */
module JsString {

  /** WhiteSpace and LineTerminator code points (sections 12.2 and 12.3 of
      ECMA-262): exactly the characters trim removes and \s matches. */
  const WhiteSpace: set<char> := {
    '\t', '\n', '\U{B}', '\U{C}', '\r', ' ', '\U{A0}', '\U{1680}',
    '\U{2000}', '\U{2001}', '\U{2002}', '\U{2003}', '\U{2004}', '\U{2005}',
    '\U{2006}', '\U{2007}', '\U{2008}', '\U{2009}', '\U{200A}',
    '\U{2028}', '\U{2029}', '\U{202F}', '\U{205F}', '\U{3000}', '\U{FEFF}'
  }

  predicate IsWs(c: char) {
    c in WhiteSpace
  }

  /** Positions lo..hi-1 of `s` hold white space (true when lo >= hi). */
  predicate BlankBetween(s: string, lo: int, hi: int)
    requires 0 <= lo && hi <= |s|
    decreases hi - lo
  {
    lo >= hi || (IsWs(s[lo]) && BlankBetween(s, lo + 1, hi))
  }

  /** Every character is white space (true of the empty string). */
  predicate IsBlank(s: string) {
    BlankBetween(s, 0, |s|)
  }

  /** Each position of a blank range holds white space. */
  lemma {:induction false} BlankAt(s: string, lo: nat, hi: int, k: int)
    requires hi <= |s| && lo <= k < hi && BlankBetween(s, lo, hi)
    ensures IsWs(s[k])
    decreases k - lo
  {
    if k > lo {
      BlankAt(s, lo + 1, hi, k);
    }
  }

  /** A range is blank exactly when both of its parts are. */
  lemma {:induction false} BlankSplit(s: string, lo: nat, mid: int, hi: int)
    requires lo <= mid <= hi <= |s|
    ensures BlankBetween(s, lo, hi) <==> BlankBetween(s, lo, mid) && BlankBetween(s, mid, hi)
    decreases mid - lo
  {
    if lo < mid {
      BlankSplit(s, lo + 1, mid, hi);
    }
  }

  /** Blank ranges of a suffix are the blank ranges of the whole string,
      shifted by where the suffix starts. */
  lemma {:induction false} BlankShift(s: string, d: nat, lo: nat, hi: int)
    requires d <= |s| && hi <= |s| - d
    ensures BlankBetween(s[d..], lo, hi) <==> BlankBetween(s, lo + d, hi + d)
    decreases hi - lo
  {
    if lo < hi {
      assert s[d..][lo] == s[lo + d];
      BlankShift(s, d, lo + 1, hi);
    }
  }

  /** Blank ranges of a prefix are blank ranges of the whole string. */
  lemma {:induction false} BlankPrefix(s: string, n: nat, lo: nat, hi: int)
    requires hi <= n <= |s|
    ensures BlankBetween(s[..n], lo, hi) <==> BlankBetween(s, lo, hi)
    decreases hi - lo
  {
    if lo < hi {
      assert s[..n][lo] == s[lo];
      BlankPrefix(s, n, lo + 1, hi);
    }
  }

  /** How many white-space characters `s` starts with. */
  function LeadingBlanks(s: string): (n: nat)
    ensures n <= |s| && BlankBetween(s, 0, n)
    ensures n == |s| || !IsWs(s[n])
  {
    if s == [] || !IsWs(s[0]) then 0
    else
      var n := 1 + LeadingBlanks(s[1..]);
      BlankShift(s, 1, 0, n - 1);
      assert n == |s| || s[n] == s[1..][n - 1];
      n
  }

  /** A blank prefix followed by a character other than white space (or by
      nothing) is exactly what LeadingBlanks counts. */
  lemma {:induction false} LeadingBlanksAt(s: string, i: nat)
    requires i <= |s| && BlankBetween(s, 0, i) && (i == |s| || !IsWs(s[i]))
    ensures LeadingBlanks(s) == i
  {
    if i > 0 {
      BlankShift(s, 1, 0, i - 1);
      assert i == |s| || s[1..][i - 1] == s[i];
      LeadingBlanksAt(s[1..], i - 1);
    }
  }

  /** Where the text of s[lo..hi] ends once its trailing white space is
      dropped: the positions from there up to `hi` are blank, and the one
      before is not white space unless the text is empty. */
  function TextEnd(s: string, lo: nat, hi: nat): (m: nat)
    requires lo <= hi <= |s|
    ensures lo <= m <= hi && BlankBetween(s, m, hi)
    ensures m == lo || !IsWs(s[m - 1])
    decreases hi
  {
    if hi == lo || !IsWs(s[hi - 1]) then hi
    else
      var m := TextEnd(s, lo, hi - 1);
      BlankSplit(s, m, hi - 1, hi);
      m
  }

  /** Any position with the two properties of TextEnd is TextEnd. */
  lemma {:induction false} TextEndAt(s: string, lo: nat, hi: nat, m: nat)
    requires lo <= m <= hi <= |s| && BlankBetween(s, m, hi) && (m == lo || !IsWs(s[m - 1]))
    ensures TextEnd(s, lo, hi) == m
    decreases hi
  {
    if m < hi {
      BlankAt(s, m, hi, hi - 1);
      BlankSplit(s, m, hi - 1, hi);
      TextEndAt(s, lo, hi - 1, m);
    }
  }

  /** Removes the leading white space (String.prototype.trimStart, and what
      the pattern \s* removes at the start of a string): what is left is `s`
      without a blank prefix, and does not start with white space. */
  function TrimStart(s: string): (r: string)
    ensures exists n :: 0 <= n <= |s| && BlankBetween(s, 0, n) && r == s[n..]
    ensures r == [] || !IsWs(r[0])
  {
    var n := LeadingBlanks(s);
    assert n < |s| ==> s[n..][0] == s[n];
    s[n..]
  }

  /** String.prototype.trim: the part of `s` between its leading and its
      trailing white space. It is empty exactly when `s` is blank, and
      otherwise starts and ends with a character that is not white space. */
  function Trim(s: string): (r: string)
    ensures exists i, j :: 0 <= i <= j <= |s| && r == s[i..j] && BlankBetween(s, 0, i) && BlankBetween(s, j, |s|)
    ensures r == [] <==> IsBlank(s)
    ensures r != [] ==> !IsWs(r[0]) && !IsWs(r[|r| - 1])
  {
    var i := LeadingBlanks(s);
    var j := TextEnd(s, i, |s|);
    TrimBounds(s, i, j);
    s[i..j]
  }

  /** The slice between a blank prefix that ends before a character other
      than white space and a blank end that starts after one has the
      properties Trim promises. */
  lemma TrimBounds(s: string, i: nat, j: nat)
    requires i <= j <= |s| && BlankBetween(s, 0, i) && BlankBetween(s, j, |s|)
    requires i == |s| || !IsWs(s[i])
    requires j == i || !IsWs(s[j - 1])
    ensures s[i..j] == [] <==> IsBlank(s)
    ensures s[i..j] != [] ==> !IsWs(s[i..j][0]) && !IsWs(s[i..j][j - i - 1])
  {
    if i == j {
      if i < |s| {
        BlankAt(s, j, |s|, i);
      }
      BlankSplit(s, 0, i, |s|);
    } else if IsBlank(s) {
      BlankAt(s, 0, |s|, i);
    }
  }

  /** Trim is characterised by its contract: a slice between a blank prefix
      and a blank end that is empty or starts and ends with a character
      other than white space is the trim. */
  lemma TrimUnique(s: string, i: nat, j: nat)
    requires i <= j <= |s| && BlankBetween(s, 0, i) && BlankBetween(s, j, |s|)
    requires i < j ==> !IsWs(s[i]) && !IsWs(s[j - 1])
    ensures Trim(s) == s[i..j]
  {
    if i == j {
      BlankSplit(s, 0, i, |s|);
      assert IsBlank(s);
    } else {
      LeadingBlanksAt(s, i);
      TextEndAt(s, i, |s|, j);
    }
  }

  /** Trimming twice is trimming once. */
  lemma TrimIdempotent(s: string)
    ensures Trim(Trim(s)) == Trim(s)
  {
    var r := Trim(s);
    TrimUnique(r, 0, |r|);
    assert r[0..|r|] == r;
  }

  /** Trimming after dropping the leading white space is plain trimming. */
  lemma TrimAfterTrimStart(s: string)
    ensures Trim(TrimStart(s)) == Trim(s)
  {
    var i := LeadingBlanks(s);
    var j := TextEnd(s, i, |s|);
    var t := s[i..];
    assert TrimStart(s) == t;
    BlankShift(s, i, j - i, |t|);
    assert t[j - i..] == s[j..];
    if i < j {
      assert t[0] == s[i] && t[j - i - 1] == s[j - 1];
    }
    TrimUnique(t, 0, j - i);
    assert t[0..j - i] == s[i..j];
  }

  /** Trimming starts at the first character that is not white space. */
  lemma TrimStartsAt(s: string, i: nat)
    requires i < |s| && BlankBetween(s, 0, i) && !IsWs(s[i])
    ensures Trim(s) != [] && Trim(s)[0] == s[i]
  {
    LeadingBlanksAt(s, i);
    var j := TextEnd(s, i, |s|);
    if j == i {
      BlankAt(s, i, |s|, i);
    }
  }

  /** In particular a string that starts with a character other than white
      space keeps that character first when trimmed. */
  lemma TrimKeepsFirst(s: string)
    requires s != [] && !IsWs(s[0])
    ensures Trim(s) != [] && Trim(s)[0] == s[0]
  {
    TrimStartsAt(s, 0);
  }

  /** Concatenation of `parts` with `sep` between neighbours
      (Array.prototype.join with a one-character separator). */
  function Join(parts: seq<string>, sep: char): (r: string)
    requires |parts| >= 1
  {
    if |parts| == 1 then parts[0] else parts[0] + [sep] + Join(parts[1..], sep)
  }

  /** String.prototype.split with a one-character separator: the pieces
      between consecutive occurrences of `sep`, empty pieces included, so
      there is always one piece more than there are separators. */
  function Split(s: string, sep: char): (r: seq<string>)
    ensures |r| >= 1
    ensures forall k :: 0 <= k < |r| ==> sep !in r[k]
    decreases |s|
  {
    if s == [] then [""]
    else
      var rest := Split(s[1..], sep);
      if s[0] == sep then [""] + rest
      else [[s[0]] + rest[0]] + rest[1..]
  }

  /** Joining the pieces back with the separator restores the string. */
  lemma {:induction false} JoinSplit(s: string, sep: char)
    ensures Join(Split(s, sep), sep) == s
    decreases |s|
  {
    if s != [] {
      var rest := Split(s[1..], sep);
      JoinSplit(s[1..], sep);
      if s[0] != sep {
        var r := Split(s, sep);
        assert r[1..] == rest[1..];
        if |rest| == 1 {
          assert Join(r, sep) == [s[0]] + rest[0];
        } else {
          assert Join(r, sep) == [s[0]] + rest[0] + [sep] + Join(rest[1..], sep);
        }
      } else {
        assert Split(s, sep)[1..] == rest;
      }
    }
  }

  /** Splitting a join of separator-free pieces gives the pieces back: with
      JoinSplit, split and join are inverse to each other. */
  lemma {:induction false} SplitJoin(parts: seq<string>, sep: char)
    requires |parts| >= 1
    requires forall k :: 0 <= k < |parts| ==> sep !in parts[k]
    ensures Split(Join(parts, sep), sep) == parts
    decreases |parts|, |parts[0]|
  {
    var p := parts[0];
    if p == [] {
      if |parts| > 1 {
        SplitJoin(parts[1..], sep);
        assert Join(parts, sep) == [sep] + Join(parts[1..], sep);
      }
    } else {
      var tail := [p[1..]] + parts[1..];
      assert tail[1..] == parts[1..];
      SplitJoin(tail, sep);
      if |parts| == 1 {
        assert Join(parts, sep) == [p[0]] + Join(tail, sep);
      } else {
        assert Join(parts, sep) == [p[0]] + (p[1..] + [sep] + Join(parts[1..], sep));
      }
      assert Join(parts, sep)[1..] == Join(tail, sep);
      assert [p[0]] + p[1..] == p;
    }
  }
}
