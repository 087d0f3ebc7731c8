/** The parts of Python's `str` that the backend and the client call, on strings of code points. */
module Strings {

  predicate StartsWith(s: string, prefix: string)
  {
    |prefix| <= |s| && s[..|prefix|] == prefix
  }

  /** `s.endswith(suffix)` */
  predicate EndsWith(s: string, suffix: string)
  {
    |suffix| <= |s| && s[|s| - |suffix|..] == suffix
  }

  /** `s.find(c, from)`: the first index at or after `from` holding `c`; `|s|` stands for Python's -1. */
  function FindFrom(s: string, c: char, from: nat): (i: nat)
    requires from <= |s|
    ensures from <= i <= |s|
    ensures i < |s| ==> s[i] == c
    ensures forall k :: from <= k < i ==> s[k] != c
    decreases |s| - from
  {
    if from == |s| then from
    else if s[from] == c then from
    else FindFrom(s, c, from + 1)
  }

  /** `s.find(c)`, with `|s|` for "absent". */
  function Find(s: string, c: char): (i: nat)
    ensures i <= |s|
    ensures i < |s| <==> c in s
    ensures i < |s| ==> s[i] == c
    ensures forall k :: 0 <= k < i ==> s[k] != c
  {
    FindFrom(s, c, 0)
  }

  /** `s.rfind(c)` for a character that occurs in `s`. */
  function RFind(s: string, c: char): (i: nat)
    requires c in s
    ensures i < |s| && s[i] == c
    ensures forall k :: i < k < |s| ==> s[k] != c
  {
    if s[|s| - 1] == c then |s| - 1
    else
      assert c in s[..|s| - 1] by {
        var j :| 0 <= j < |s| && s[j] == c;
        assert s[..|s| - 1][j] == c;
      }
      RFind(s[..|s| - 1], c)
  }

  /** Any index that has the defining property of `FindFrom` is the one it returns. */
  lemma FindFromIsFirst(s: string, c: char, from: nat, j: nat)
    requires from <= j <= |s|
    requires j < |s| ==> s[j] == c
    requires forall k :: from <= k < j ==> s[k] != c
    ensures FindFrom(s, c, from) == j
  {
  }

  /** Searching a concatenation finds the first string's occurrence, or else the second's, shifted. */
  lemma FindFromAppend(a: string, b: string, c: char, from: nat)
    requires from <= |a|
    ensures FindFrom(a + b, c, from)
         == if FindFrom(a, c, from) < |a| then FindFrom(a, c, from) else |a| + FindFrom(b, c, 0)
  {
    var i := FindFrom(a, c, from);
    if i < |a| {
      FindFromIsFirst(a + b, c, from, i);
    } else {
      var j := FindFrom(b, c, 0);
      forall k | from <= k < |a| + j ensures (a + b)[k] != c {
        if k >= |a| { assert (a + b)[k] == b[k - |a|]; }
      }
      FindFromIsFirst(a + b, c, from, |a| + j);
    }
  }

  // ---------------------------------------------------------------------------
  // Leading and trailing trimming: `str.lstrip(chars)` and the two halves of `str.strip()`.

  /** Drops the longest prefix whose characters satisfy `trim`. */
  function TrimStart(s: string, trim: char -> bool): (r: string)
    ensures |r| <= |s| && r == s[|s| - |r|..]
    ensures r == [] || !trim(r[0])
    ensures forall k :: 0 <= k < |s| - |r| ==> trim(s[k])
  {
    if s != [] && trim(s[0]) then
      var r := TrimStart(s[1..], trim);
      assert forall k :: 1 <= k < |s| - |r| ==> s[k] == s[1..][k - 1];
      r
    else s
  }

  /** Drops the longest suffix whose characters satisfy `trim`. */
  function TrimEnd(s: string, trim: char -> bool): (r: string)
    ensures |r| <= |s| && r == s[..|r|]
    ensures r == [] || !trim(r[|r| - 1])
    ensures forall k :: |r| <= k < |s| ==> trim(s[k])
  {
    if s != [] && trim(s[|s| - 1]) then
      var r := TrimEnd(s[..|s| - 1], trim);
      assert forall k :: |r| <= k < |s| - 1 ==> s[k] == s[..|s| - 1][k];
      r
    else s
  }

  /** A prefix made only of trimmed characters leaves the rest untouched. */
  lemma {:induction false} TrimStartAppend(a: string, b: string, trim: char -> bool)
    requires b != [] && !trim(b[0])
    ensures TrimStart(a + b, trim) == TrimStart(a, trim) + b
  {
    if a == [] {
      assert a + b == b;
    } else if trim(a[0]) {
      assert (a + b)[1..] == a[1..] + b;
      TrimStartAppend(a[1..], b, trim);
    } else {
      assert (a + b)[0] == a[0];
    }
  }

  /** The characters `str.isspace()` accepts (and so the ones `str.strip()` removes). */
  predicate IsSpace(ch: char)
  {
    || ('\t' <= ch <= '\r')
    || ('\U{1C}' <= ch <= ' ')
    || ch == '\U{85}' || ch == '\U{A0}' || ch == '\U{1680}'
    || ('\U{2000}' <= ch <= '\U{200A}')
    || ch == '\U{2028}' || ch == '\U{2029}' || ch == '\U{202F}' || ch == '\U{205F}' || ch == '\U{3000}'
  }

  /** Only white space (`not s.strip()`). */
  predicate Blank(s: string)
  {
    forall k :: 0 <= k < |s| ==> IsSpace(s[k])
  }

  /** `s.strip()` */
  function Strip(s: string): (r: string)
    ensures r == [] <==> Blank(s)
    ensures r != [] ==> !IsSpace(r[0]) && !IsSpace(r[|r| - 1])
  {
    var front := TrimStart(s, IsSpace);
    var r := TrimEnd(front, IsSpace);
    r
  }

  // ---------------------------------------------------------------------------
  // `sep.join(parts)` and `s.split(c)` for a one-character separator.

  /** `sep.join(parts)` */
  function Join(parts: seq<string>, sep: string): string
  {
    if |parts| == 0 then ""
    else if |parts| == 1 then parts[0]
    else parts[0] + sep + Join(parts[1..], sep)
  }

  /** The joined text starts with the first part. */
  lemma JoinStartsWithFirst(parts: seq<string>, sep: string)
    requires parts != []
    ensures StartsWith(Join(parts, sep), parts[0])
  {
    if |parts| > 1 {
      assert Join(parts, sep) == parts[0] + (sep + Join(parts[1..], sep));
    }
  }

  /** Sum of the lengths of the parts. */
  function TotalLength(parts: seq<string>): nat
  {
    if parts == [] then 0 else |parts[0]| + TotalLength(parts[1..])
  }

  /** The joined text holds every part and one separator between neighbours, nothing else. */
  lemma {:induction false} JoinLength(parts: seq<string>, sep: string)
    requires parts != []
    ensures |Join(parts, sep)| == TotalLength(parts) + (|parts| - 1) * |sep|
  {
    if |parts| > 1 {
      JoinLength(parts[1..], sep);
    }
  }

  /** `s.split(c)`: the maximal runs between occurrences of `c`, empty runs included. */
  function Split(s: string, c: char): (parts: seq<string>)
    ensures |parts| >= 1
    ensures forall k :: 0 <= k < |parts| ==> c !in parts[k]
    ensures |parts| == 1 <==> c !in s
    ensures |parts| == 1 ==> parts[0] == s
  {
    if s == [] then [""]
    else
      var tail := Split(s[1..], c);
      assert c in s[1..] ==> c in s;
      assert c in s && s[0] != c ==> c in s[1..] by {
        if c in s && s[0] != c {
          var j :| 0 <= j < |s| && s[j] == c;
          assert s[1..][j - 1] == c;
        }
      }
      assert [s[0]] + s[1..] == s;
      if s[0] == c then [""] + tail
      else [[s[0]] + tail[0]] + tail[1..]
  }

  /** Text put in front of the first part comes out in front of the joined text. */
  lemma JoinExtendsFirst(x: string, parts: seq<string>, sep: string)
    requires parts != []
    ensures Join([x + parts[0]] + parts[1..], sep) == x + Join(parts, sep)
  {
    var ext := [x + parts[0]] + parts[1..];
    assert ext[1..] == parts[1..];
    if |parts| > 1 {
      assert Join(ext, sep) == (x + parts[0]) + sep + Join(parts[1..], sep);
    }
  }

  /** An empty first part leaves just the separator in front of the rest. */
  lemma JoinAfterEmptyFirst(parts: seq<string>, sep: string)
    requires parts != []
    ensures Join([""] + parts, sep) == sep + Join(parts, sep)
  {
    assert ([""] + parts)[1..] == parts;
  }

  /** Joining the parts of a split with the same separator gives back the text. */
  lemma {:induction false} JoinSplit(s: string, c: char)
    ensures Join(Split(s, c), [c]) == s
  {
    if s != [] {
      var tail := Split(s[1..], c);
      JoinSplit(s[1..], c);
      if s[0] == c {
        JoinAfterEmptyFirst(tail, [c]);
      } else {
        JoinExtendsFirst([s[0]], tail, [c]);
      }
      assert [s[0]] + s[1..] == s;
    }
  }

  lemma {:induction false} SplitWithoutSeparator(a: string, c: char)
    requires c !in a
    ensures Split(a, c) == [a]
  {
    if a != [] {
      SplitWithoutSeparator(a[1..], c);
      assert [a[0]] + a[1..] == a;
    }
  }

  lemma {:induction false} SplitAfterFirstPart(a: string, b: string, c: char)
    requires c !in a
    ensures Split(a + [c] + b, c) == [a] + Split(b, c)
  {
    if a == [] {
      assert a + [c] + b == [c] + b;
      assert ([c] + b)[1..] == b;
    } else {
      assert (a + [c] + b)[1..] == a[1..] + [c] + b;
      assert (a + [c] + b)[0] == a[0];
      SplitAfterFirstPart(a[1..], b, c);
      assert [a[0]] + a[1..] == a;
    }
  }

  /** Splitting a join of separator-free parts gives back the parts. */
  lemma {:induction false} SplitJoin(parts: seq<string>, c: char)
    requires parts != []
    requires forall k :: 0 <= k < |parts| ==> c !in parts[k]
    ensures Split(Join(parts, [c]), c) == parts
  {
    if |parts| == 1 {
      SplitWithoutSeparator(parts[0], c);
    } else {
      SplitJoin(parts[1..], c);
      SplitAfterFirstPart(parts[0], Join(parts[1..], [c]), c);
      assert [parts[0]] + parts[1..] == parts;
    }
  }

  /** `s.split(c)[-1]` */
  function LastPart(s: string, c: char): (r: string)
    ensures c !in r
    ensures c !in s ==> r == s
  {
    var parts := Split(s, c);
    parts[|parts| - 1]
  }

  /** Dropping the first character of a text that holds `c` does not change the last part. */
  lemma LastPartStep(s: string, c: char)
    requires s != [] && c in s
    ensures LastPart(s, c) == LastPart(s[1..], c)
  {
    var tail := Split(s[1..], c);
    if s[0] != c {
      assert c in s[1..] by {
        var j :| 0 <= j < |s| && s[j] == c;
        assert s[1..][j - 1] == c;
      }
      assert |tail| > 1;
    }
    var parts := Split(s, c);
    assert parts[|parts| - 1] == tail[|tail| - 1];
  }

  /** The last part is the longest suffix free of `c`: it is the whole text when `c` does not occur,
      and otherwise exactly what follows the last `c`. */
  lemma {:induction false} LastPartIsTextAfterLastSeparator(s: string, c: char)
    ensures EndsWith(s, LastPart(s, c))
    ensures c !in LastPart(s, c)
    ensures |LastPart(s, c)| < |s| ==> s[|s| - |LastPart(s, c)| - 1] == c
    ensures c !in s ==> LastPart(s, c) == s
  {
    if s != [] {
      if c !in s {
        SplitWithoutSeparator(s, c);
      } else {
        LastPartStep(s, c);
        LastPartIsTextAfterLastSeparator(s[1..], c);
        SeparatedSuffixStep(s, c, LastPart(s[1..], c));
      }
    }
  }

  /** A `c`-free suffix of `s[1..]` that follows a `c` (or is all of `s[1..]`) is a suffix of `s`
      that follows a `c`, when `c` occurs in `s`. */
  lemma SeparatedSuffixStep(s: string, c: char, last: string)
    requires s != [] && c in s
    requires EndsWith(s[1..], last) && c !in last
    requires |last| < |s| - 1 ==> s[1..][|s| - 1 - |last| - 1] == c
    ensures EndsWith(s, last)
    ensures |last| < |s| ==> s[|s| - |last| - 1] == c
  {
    assert s[1..][|s| - 1 - |last|..] == s[|s| - |last|..];
    if |last| == |s| - 1 {
      assert last == s[1..];
      assert s == [s[0]] + s[1..];
    }
  }

  /** A text that ends with `c` and then a `c`-free tail has that tail as its last part. */
  lemma LastPartAfterLastSeparator(a: string, b: string, c: char)
    requires c !in b
    ensures LastPart(a + [c] + b, c) == b
  {
    var s := a + [c] + b;
    var last := LastPart(s, c);
    LastPartIsTextAfterLastSeparator(s, c);
    assert s[|a|] == c;
    assert |last| == |b|;
    assert s[|s| - |b|..] == b;
  }

  // ---------------------------------------------------------------------------
  // Decimal numerals, as `str(n)` and an f-string write a non-negative integer.

  predicate IsDigit(ch: char)
  {
    '0' <= ch <= '9'
  }

  /** `str(n)` for `n >= 0`. */
  function Decimal(n: nat): (s: string)
    ensures s != [] && forall k :: 0 <= k < |s| ==> IsDigit(s[k])
    ensures s[0] == '0' ==> n == 0
  {
    if n < 10 then [('0' as int + n) as char]
    else Decimal(n / 10) + [('0' as int + n % 10) as char]
  }

  /** The number a string of digits denotes. */
  function DecimalValue(s: string): nat
    requires forall k :: 0 <= k < |s| ==> IsDigit(s[k])
  {
    if s == [] then 0
    else
      assert IsDigit(s[|s| - 1]);
      DecimalValue(s[..|s| - 1]) * 10 + (s[|s| - 1] as int - '0' as int)
  }

  /** Reading back the numeral gives the number. */
  lemma {:induction false} DecimalValueOfDecimal(n: nat)
    ensures DecimalValue(Decimal(n)) == n
  {
    if n >= 10 {
      var s := Decimal(n);
      assert s[..|s| - 1] == Decimal(n / 10);
      DecimalValueOfDecimal(n / 10);
    }
  }

  /** Different numbers are written differently. */
  lemma DecimalInjective(m: nat, n: nat)
    requires Decimal(m) == Decimal(n)
    ensures m == n
  {
    DecimalValueOfDecimal(m);
    DecimalValueOfDecimal(n);
  }
}
