/**
  Models of the Python `str` operations the processor relies on: `isspace`,
  `lower`, `split()`, `split(sep)`, `sep.join`, `strip` and `find`.
  Whitespace and case are modelled on ASCII only.
 */
module Strings {

  datatype Option<T> = None | Some(value: T)

  /** Python's whitespace test restricted to ASCII: the controls 9 to 13
      (\t \n \v \f \r), the separators 28 to 31 and the space 32. */
  predicate IsSpace(c: char) {
    var n := c as int;
    9 <= n <= 13 || 28 <= n <= 32
  }

  /** Python's `lower()` on one ASCII character. */
  function Lower(c: char): (d: char)
    ensures !('A' <= d <= 'Z')
    ensures 'A' <= c <= 'Z' ==> d as int == c as int + 32
    ensures IsSpace(d) == IsSpace(c)
    ensures !('A' <= c <= 'Z') ==> d == c
  {
    if 'A' <= c <= 'Z' then (c as int + 32) as char else c
  }

  /** Python's `s.lower()`. */
  function LowerString(s: string): string {
    seq(|s|, k requires 0 <= k < |s| => Lower(s[k]))
  }

  /** Lower-cases every word of a list. */
  function LowerWords(ws: seq<string>): seq<string> {
    seq(|ws|, k requires 0 <= k < |ws| => LowerString(ws[k]))
  }

  predicate AllSpace(s: string) {
    forall k :: 0 <= k < |s| ==> IsSpace(s[k])
  }

  /** A word as `split()` produces it: non-empty, no whitespace inside. */
  predicate IsWord(w: string) {
    w != [] && forall k :: 0 <= k < |w| ==> !IsSpace(w[k])
  }

  /** The longest prefix of `s` that holds no whitespace. */
  function LeadingWord(s: string): (w: string)
    ensures |w| <= |s|
    ensures s != [] && !IsSpace(s[0]) ==> w != []
  {
    if s == [] || IsSpace(s[0]) then "" else [s[0]] + LeadingWord(s[1..])
  }

  lemma {:induction false} LeadingWordSpec(s: string)
    ensures var w := LeadingWord(s);
      && w == s[..|w|]
      && (forall k :: 0 <= k < |w| ==> !IsSpace(w[k]))
      && (|w| == |s| || IsSpace(s[|w|]))
  {
    if s != [] && !IsSpace(s[0]) {
      LeadingWordSpec(s[1..]);
    }
  }

  /** Python's `s.split()`: the maximal whitespace-free runs of `s`, in order. */
  function Split(s: string): seq<string>
    decreases |s|
  {
    if s == [] then []
    else if IsSpace(s[0]) then Split(s[1..])
    else
      var w := LeadingWord(s);
      [w] + Split(s[|w|..])
  }

  /** Every piece `split()` returns is a word, and it returns none exactly
      when the string is all whitespace. */
  lemma {:induction false} SplitSpec(s: string)
    decreases |s|
    ensures forall k :: 0 <= k < |Split(s)| ==> IsWord(Split(s)[k])
    ensures Split(s) == [] <==> AllSpace(s)
  {
    if s == [] {
    } else if IsSpace(s[0]) {
      SplitSpec(s[1..]);
      assert AllSpace(s[1..]) ==> AllSpace(s) by {
        if AllSpace(s[1..]) {
          forall k | 0 <= k < |s| ensures IsSpace(s[k]) {
            if k > 0 { assert s[k] == s[1..][k - 1]; }
          }
        }
      }
    } else {
      var w := LeadingWord(s);
      LeadingWordSpec(s);
      SplitSpec(s[|w|..]);
    }
  }

  /** Leading whitespace does not change what `split()` returns. */
  lemma {:induction false} SplitSkipsSpaces(p: string, x: string)
    requires AllSpace(p)
    ensures Split(p + x) == Split(x)
  {
    if p == [] {
      assert p + x == x;
    } else {
      assert (p + x)[1..] == p[1..] + x;
      SplitSkipsSpaces(p[1..], x);
    }
  }

  /** Trailing whitespace does not change the leading word. */
  lemma LeadingWordSpaceSuffix(y: string, q: string)
    requires AllSpace(q)
    ensures LeadingWord(y + q) == LeadingWord(y)
  {
    var w := LeadingWord(y);
    LeadingWordSpec(y);
    var t := y[|w|..];
    assert y == w + t;
    if t == [] {
      assert y == w;
      LeadingWordOf(w, q);
    } else {
      assert y + q == w + (t + q);
      LeadingWordOf(w, t + q);
    }
  }

  /** Python's `sep.join(parts)` for a one-character separator. */
  function Join(sep: char, parts: seq<string>): string {
    if parts == [] then ""
    else if |parts| == 1 then parts[0]
    else parts[0] + [sep] + Join(sep, parts[1..])
  }

  /** Joining two non-empty lists puts one separator between their joins. */
  lemma {:induction false} JoinAppend(sep: char, a: seq<string>, b: seq<string>)
    requires a != [] && b != []
    ensures Join(sep, a + b) == Join(sep, a) + [sep] + Join(sep, b)
  {
    if |a| == 1 {
      assert (a + b)[1..] == b;
    } else {
      assert (a + b)[1..] == a[1..] + b;
      JoinAppend(sep, a[1..], b);
    }
  }

  lemma {:induction false} LeadingWordOf(w: string, t: string)
    requires forall k :: 0 <= k < |w| ==> !IsSpace(w[k])
    requires t == [] || IsSpace(t[0])
    ensures LeadingWord(w + t) == w
  {
    if w != [] {
      assert (w + t)[1..] == w[1..] + t;
      LeadingWordOf(w[1..], t);
    } else {
      assert w + t == t;
    }
  }

  /** A word followed by nothing or by whitespace is the first piece of `split()`. */
  lemma SplitWordThen(w: string, t: string)
    requires IsWord(w)
    requires t == [] || IsSpace(t[0])
    ensures Split(w + t) == [w] + Split(t)
  {
    var s := w + t;
    LeadingWordOf(w, t);
    assert s[0] == w[0];
    assert s[|w|..] == t;
  }

  /** Splitting words joined by single spaces gives back the words. */
  lemma {:induction false} SplitJoin(ws: seq<string>)
    requires forall k :: 0 <= k < |ws| ==> IsWord(ws[k])
    ensures Split(Join(' ', ws)) == ws
  {
    if |ws| == 1 {
      SplitWordThen(ws[0], "");
      assert ws[0] + "" == ws[0];
    } else if |ws| > 1 {
      var w, rest := ws[0], Join(' ', ws[1..]);
      assert Join(' ', ws) == w + ([' '] + rest);
      SplitWordThen(w, [' '] + rest);
      SplitSkipsSpaces([' '], rest);
      SplitJoin(ws[1..]);
      assert ws == [w] + ws[1..];
    }
  }

  lemma LowerStringAppend(a: string, b: string)
    ensures LowerString(a + b) == LowerString(a) + LowerString(b)
  {
  }

  /** Lower-casing words joined by a separator is joining the lower-cased words. */
  lemma {:induction false} LowerJoin(sep: char, ws: seq<string>)
    ensures LowerString(Join(sep, ws)) == Join(Lower(sep), LowerWords(ws))
  {
    if |ws| > 1 {
      LowerStringAppend(ws[0] + [sep], Join(sep, ws[1..]));
      LowerStringAppend(ws[0], [sep]);
      LowerJoin(sep, ws[1..]);
      assert LowerWords(ws)[1..] == LowerWords(ws[1..]);
    }
  }

  /** Words joined by single spaces: no whitespace at either end, and every
      whitespace character is a lone space between two non-whitespace ones. */
  predicate SingleSpaced(t: string) {
    forall k :: 0 <= k < |t| && IsSpace(t[k]) ==>
      t[k] == ' ' && 0 < k < |t| - 1 && !IsSpace(t[k - 1]) && !IsSpace(t[k + 1])
  }

  lemma {:induction false} JoinSingleSpaced(ws: seq<string>)
    requires forall k :: 0 <= k < |ws| ==> IsWord(ws[k])
    ensures SingleSpaced(Join(' ', ws))
    ensures ws != [] ==> Join(' ', ws) != [] && !IsSpace(Join(' ', ws)[0])
  {
    if |ws| > 1 {
      var w, rest := ws[0], Join(' ', ws[1..]);
      JoinSingleSpaced(ws[1..]);
      var t := w + [' '] + rest;
      assert forall k :: 0 <= k < |w| ==> t[k] == w[k];
      forall k | 0 <= k < |t| && IsSpace(t[k])
        ensures t[k] == ' ' && 0 < k < |t| - 1 && !IsSpace(t[k - 1]) && !IsSpace(t[k + 1])
      {
        if k > |w| {
          assert t[k] == rest[k - |w| - 1];
          assert IsSpace(rest[k - |w| - 1]);
          assert t[k - 1] == rest[k - |w| - 2] && t[k + 1] == rest[k - |w|];
        }
      }
    }
  }

  /** `s` with its leading whitespace removed. */
  function TrimStart(s: string): (r: string)
    ensures |r| <= |s|
  {
    if s != [] && IsSpace(s[0]) then TrimStart(s[1..]) else s
  }

  /** `s` with its trailing whitespace removed. */
  function TrimEnd(s: string): (r: string)
    ensures |r| <= |s|
  {
    if s != [] && IsSpace(s[|s| - 1]) then TrimEnd(s[..|s| - 1]) else s
  }

  /** Python's `s.strip()`. */
  function Strip(s: string): string {
    TrimEnd(TrimStart(s))
  }

  lemma {:induction false} TrimStartSpec(s: string)
    ensures var r := TrimStart(s);
      r == s[|s| - |r|..] && AllSpace(s[..|s| - |r|]) && (r == [] || !IsSpace(r[0]))
  {
    if s != [] && IsSpace(s[0]) {
      TrimStartSpec(s[1..]);
      var r := TrimStart(s[1..]);
      assert s[..|s| - |r|] == [s[0]] + s[1..][..|s[1..]| - |r|];
    }
  }

  lemma {:induction false} TrimEndSpec(s: string)
    ensures var r := TrimEnd(s);
      r == s[..|r|] && AllSpace(s[|r|..]) && (r == [] || !IsSpace(r[|r| - 1]))
  {
    if s != [] && IsSpace(s[|s| - 1]) {
      TrimEndSpec(s[..|s| - 1]);
      var r := TrimEnd(s[..|s| - 1]);
      assert s[|r|..] == s[..|s| - 1][|r|..] + [s[|s| - 1]];
    }
  }

  /** `strip()` removes exactly the whitespace at both ends: what is left is
      a slice of `s` with no whitespace at either end, and only whitespace
      lies outside it. */
  lemma StripSpec(s: string)
    ensures var r := Strip(s);
      && (r == [] || (!IsSpace(r[0]) && !IsSpace(r[|r| - 1])))
      && (exists a :: 0 <= a <= |s| - |r| && r == s[a..a + |r|] && AllSpace(s[..a]) && AllSpace(s[a + |r|..]))
  {
    var t := TrimStart(s);
    TrimStartSpec(s);
    TrimEndSpec(t);
    var r := TrimEnd(t);
    var a := |s| - |t|;
    assert r == s[a..a + |r|];
    assert s[a + |r|..] == t[|r|..];
  }

  /** Python's `s.split(sep)` for a one-character separator: the pieces
      between the separators, so there is always at least one. */
  function SplitOn(s: string, sep: char): (parts: seq<string>)
    ensures |parts| >= 1
  {
    if s == [] then [""]
    else
      var rest := SplitOn(s[1..], sep);
      if s[0] == sep then [""] + rest
      else [[s[0]] + rest[0]] + rest[1..]
  }

  /** A string without the separator splits into itself alone. */
  lemma {:induction false} SplitOnWithout(s: string, sep: char)
    requires sep !in s
    ensures SplitOn(s, sep) == [s]
  {
    if s != [] {
      SplitOnWithout(s[1..], sep);
      assert [s[0]] + s[1..] == s;
    }
  }

  /** A string holding the separator splits into more than one piece. */
  lemma {:induction false} SplitOnWith(s: string, sep: char)
    requires sep in s
    ensures |SplitOn(s, sep)| > 1
  {
    if s[0] != sep {
      assert sep in s[1..];
      SplitOnWith(s[1..], sep);
    }
  }

  /** The last piece of `s.split(sep)` is the suffix of `s` after its last
      separator, or all of `s` when it holds none. */
  lemma {:induction false} SplitOnLast(s: string, sep: char)
    ensures var parts := SplitOn(s, sep); var last := parts[|parts| - 1];
      && sep !in last
      && |last| <= |s| && last == s[|s| - |last|..]
      && (sep in s ==> |last| < |s| && s[|s| - |last| - 1] == sep)
      && (sep !in s ==> last == s)
  {
    if sep !in s {
      SplitOnWithout(s, sep);
    } else {
      var t := s[1..];
      var rest := SplitOn(t, sep);
      var parts := SplitOn(s, sep);
      assert parts[|parts| - 1] == rest[|rest| - 1] by {
        if s[0] != sep {
          assert sep in t;
          SplitOnWith(t, sep);
        }
      }
      SplitOnLast(t, sep);
      var last := rest[|rest| - 1];
      if sep !in t {
        SplitOnWithout(t, sep);
        assert last == t;
      } else {
        assert t[|t| - |last| - 1] == s[|s| - |last| - 1];
      }
      assert t[|t| - |last|..] == s[|s| - |last|..];
    }
  }

  lemma {:induction false} SplitOnSeparated(p: string, sep: char, t: string)
    requires sep !in p
    ensures SplitOn(p + [sep] + t, sep) == [p] + SplitOn(t, sep)
  {
    var s := p + [sep] + t;
    if p == [] {
      assert s == [sep] + t && s[0] == sep && s[1..] == t;
      assert SplitOn(s, sep) == [""] + SplitOn(s[1..], sep);
    } else {
      assert s[0] == p[0] != sep;
      assert s[1..] == p[1..] + [sep] + t;
      SplitOnSeparated(p[1..], sep, t);
      var rest := SplitOn(s[1..], sep);
      assert rest == [p[1..]] + SplitOn(t, sep);
      assert SplitOn(s, sep) == [[s[0]] + rest[0]] + rest[1..];
      assert [p[0]] + p[1..] == p;
    }
  }

  /** Splitting pieces joined by a separator that none of them holds gives back the pieces. */
  lemma {:induction false} SplitOnJoin(sep: char, parts: seq<string>)
    requires parts != []
    requires forall k :: 0 <= k < |parts| ==> sep !in parts[k]
    ensures SplitOn(Join(sep, parts), sep) == parts
  {
    if |parts| > 1 {
      SplitOnSeparated(parts[0], sep, Join(sep, parts[1..]));
      SplitOnJoin(sep, parts[1..]);
      assert parts == [parts[0]] + parts[1..];
    } else {
      SplitOnWithout(parts[0], sep);
    }
  }

  /** Whether `sub` occurs in `text` at position `i`. */
  predicate OccursAt(text: string, sub: string, i: nat) {
    i + |sub| <= |text| && text[i..i + |sub|] == sub
  }

  /** Python's `text.find(sub, from)`: the first position at or after `from`
      where `sub` occurs, or None where Python returns -1. */
  function Find(text: string, sub: string, from: nat): (r: Option<nat>)
    decreases |text| - from
    ensures r.Some? ==> from <= r.value && r.value + |sub| <= |text|
  {
    if from + |sub| > |text| then None
    else if text[from..from + |sub|] == sub then Some(from)
    else Find(text, sub, from + 1)
  }

  /** `find` returns the first position at or after `from` where `sub`
      occurs, and reports -1 only when there is none. */
  lemma {:induction false} FindSpec(text: string, sub: string, from: nat)
    decreases |text| - from
    ensures var r := Find(text, sub, from);
      && (r.Some? ==> OccursAt(text, sub, r.value))
      && (r.Some? ==> forall j :: from <= j < r.value ==> !OccursAt(text, sub, j))
      && (r.None? ==> forall j :: from <= j ==> !OccursAt(text, sub, j))
  {
    if from + |sub| <= |text| && text[from..from + |sub|] != sub {
      FindSpec(text, sub, from + 1);
    }
  }

  /** `find` misses a substring holding a character the text lacks. */
  lemma MissingCharNotFound(text: string, sub: string, c: char, from: nat)
    requires c in sub && c !in text
    ensures Find(text, sub, from) == None
  {
    FindSpec(text, sub, from);
  }

  /** `find` misses a substring holding a character twice in a row when the
      text holds that character only once. */
  lemma DoubledCharNotFound(text: string, sub: string, pre: string, c: char, post: string, j: nat, from: nat)
    requires text == pre + [c] + post && c !in pre && c !in post
    requires j + 1 < |sub| && sub[j] == c && sub[j + 1] == c
    ensures Find(text, sub, from) == None
  {
    FindSpec(text, sub, from);
  }

  /** `find` skips a stretch of the text that lacks the substring's first character. */
  lemma {:induction false} FindSkip(text: string, sub: string, from: nat, stop: nat)
    requires from <= stop <= |text| && sub != [] && sub[0] !in text[from..stop]
    decreases stop - from
    ensures Find(text, sub, from) == Find(text, sub, stop)
  {
    if from < stop {
      assert text[from] == text[from..stop][0];
      if from + |sub| <= |text| {
        assert text[from..from + |sub|][0] == text[from];
      }
      assert text[from + 1..stop] == text[from..stop][1..];
      FindSkip(text, sub, from + 1, stop);
    }
  }
}
