/** The JavaScript string built-ins the CSV upload code relies on:
    `trim`, `toLowerCase`, `split` on one character, `join`, and the
    element counts and sub-string facts the proofs about them need. */
module JsStrings {

  /** A character that `String.prototype.trim` removes: the WhiteSpace and
      LineTerminator characters of ECMAScript (tab, vertical tab, form feed,
      space, no-break space, the byte-order mark, the Unicode space
      separators, line feed, carriage return, line and paragraph separator). */
  predicate IsWhitespace(c: char) {
    || c == '\t' || c == '\n' || c == '\U{000B}' || c == '\U{000C}' || c == '\r'
    || c == ' ' || c == '\U{00A0}' || c == '\U{1680}'
    || ('\U{2000}' <= c <= '\U{200A}')
    || c == '\U{2028}' || c == '\U{2029}' || c == '\U{202F}' || c == '\U{205F}'
    || c == '\U{3000}' || c == '\U{FEFF}'
  }

  /** Every character of `s` is whitespace (the empty string included). */
  predicate Blank(s: string) {
    forall k :: 0 <= k < |s| ==> IsWhitespace(s[k])
  }

  lemma BlankAppend(a: string, b: string)
    requires Blank(a) && Blank(b)
    ensures Blank(a + b)
  {
    forall k | 0 <= k < |a + b| ensures IsWhitespace((a + b)[k]) {
      if k >= |a| {
        assert (a + b)[k] == b[k - |a|];
      }
    }
  }

  /** `s` with its leading whitespace removed. */
  function TrimStart(s: string): string
    decreases |s|
  {
    if s != [] && IsWhitespace(s[0]) then TrimStart(s[1..]) else s
  }

  /** `s` with its trailing whitespace removed. */
  function TrimEnd(s: string): string
    decreases |s|
  {
    if s != [] && IsWhitespace(s[|s| - 1]) then TrimEnd(s[..|s| - 1]) else s
  }

  /** `String.prototype.trim`: the middle of `s`, with whitespace at
      neither end. */
  function Trim(s: string): (r: string)
    ensures |r| <= |s|
    ensures r == [] || (!IsWhitespace(r[0]) && !IsWhitespace(r[|r| - 1]))
  {
    TrimStartShape(s);
    TrimEndShape(TrimStart(s));
    var r := TrimEnd(TrimStart(s));
    assert r != [] ==> r[0] == TrimStart(s)[0];
    r
  }

  /** What `TrimStart` keeps is a suffix that does not start with whitespace,
      and what it drops is all whitespace. */
  lemma {:induction false} TrimStartShape(s: string)
    ensures |TrimStart(s)| <= |s| && TrimStart(s) == s[|s| - |TrimStart(s)|..]
    ensures Blank(s[..|s| - |TrimStart(s)|])
    ensures TrimStart(s) == [] || !IsWhitespace(TrimStart(s)[0])
    decreases |s|
  {
    if s != [] && IsWhitespace(s[0]) {
      var t := s[1..];
      var r := TrimStart(t);
      TrimStartShape(t);
      var n := |t| - |r|;
      assert TrimStart(s) == r && |s| - |r| == n + 1;
      assert t[n..] == s[n + 1..];
      assert s[..n + 1] == [s[0]] + t[..n];
      BlankAppend([s[0]], t[..n]);
    } else {
      assert s[..0] == [];
    }
  }

  /** What `TrimEnd` keeps is a prefix that does not end with whitespace,
      and what it drops is all whitespace. */
  lemma {:induction false} TrimEndShape(s: string)
    ensures |TrimEnd(s)| <= |s| && TrimEnd(s) == s[..|TrimEnd(s)|]
    ensures Blank(s[|TrimEnd(s)|..])
    ensures TrimEnd(s) == [] || !IsWhitespace(TrimEnd(s)[|TrimEnd(s)| - 1])
    decreases |s|
  {
    if s != [] && IsWhitespace(s[|s| - 1]) {
      var t := s[..|s| - 1];
      var r := TrimEnd(t);
      TrimEndShape(t);
      assert t[..|r|] == s[..|r|];
      assert s[|r|..] == t[|r|..] + [s[|s| - 1]];
      BlankAppend(t[|r|..], [s[|s| - 1]]);
    } else {
      assert s[|s|..] == [];
    }
  }

  lemma TrimStartEmpty(s: string)
    ensures TrimStart(s) == [] <==> Blank(s)
  {
    var r := TrimStart(s);
    TrimStartShape(s);
    if r != [] {
      assert r[0] == s[|s| - |r|];
    }
  }

  lemma TrimEndEmpty(s: string)
    ensures TrimEnd(s) == [] <==> Blank(s)
  {
    var r := TrimEnd(s);
    TrimEndShape(s);
    if r != [] {
      assert r[|r| - 1] == s[|r| - 1];
    } else {
      assert s[|r|..] == s;
    }
  }

  /** `s.trim()` is falsy exactly when `s` is blank. */
  lemma TrimEmptyIff(s: string)
    ensures Trim(s) == [] <==> Blank(s)
  {
    var t := TrimStart(s);
    TrimStartShape(s);
    TrimStartEmpty(s);
    TrimEndEmpty(t);
    if t != [] {
      assert !IsWhitespace(t[0]);
    }
  }

  /** A string with whitespace at neither end is its own trim. */
  lemma TrimOfTrimmed(s: string)
    requires s == [] || (!IsWhitespace(s[0]) && !IsWhitespace(s[|s| - 1]))
    ensures Trim(s) == s
  {
    if s != [] {
      assert TrimStart(s) == s;
      assert TrimEnd(s) == s;
    }
  }

  /** Trimming twice is trimming once. */
  lemma TrimIdempotent(s: string)
    ensures Trim(Trim(s)) == Trim(s)
  {
    TrimOfTrimmed(Trim(s));
  }

  /** Trimming adds no characters. */
  lemma TrimWithin(s: string, c: char)
    requires c !in s
    ensures c !in Trim(s)
  {
    var t := TrimStart(s);
    var r := Trim(s);
    TrimStartShape(s);
    TrimEndShape(t);
    forall k | 0 <= k < |r| ensures r[k] != c {
      assert r[k] == t[k] == s[|s| - |t| + k];
    }
  }

  /** ASCII `toLowerCase` of one character. */
  function LowerChar(c: char): (d: char)
    ensures 'A' <= c <= 'Z' ==> d as int == c as int + 32
    ensures !('A' <= c <= 'Z') ==> d == c
  {
    if 'A' <= c <= 'Z' then (c as int + 32) as char else c
  }

  /** `String.prototype.toLowerCase`, restricted to ASCII letters. */
  function ToLower(s: string): (r: string)
    ensures |r| == |s|
    ensures forall k :: 0 <= k < |s| ==> r[k] == LowerChar(s[k])
  {
    seq(|s|, k requires 0 <= k < |s| => LowerChar(s[k]))
  }

  /** The number of occurrences of `c` in `s`. */
  function Count(s: string, c: char): nat
    decreases |s|
  {
    if s == [] then 0 else (if s[0] == c then 1 else 0) + Count(s[1..], c)
  }

  lemma {:induction false} CountAppend(a: string, b: string, c: char)
    ensures Count(a + b, c) == Count(a, c) + Count(b, c)
    decreases |a|
  {
    if a == [] {
      assert a + b == b;
    } else {
      assert (a + b)[1..] == a[1..] + b;
      CountAppend(a[1..], b, c);
    }
  }

  lemma {:induction false} CountAbsent(s: string, c: char)
    requires c !in s
    ensures Count(s, c) == 0
    decreases |s|
  {
    if s != [] {
      assert c !in s[1..] by {
        forall k | 0 <= k < |s[1..]| ensures s[1..][k] != c {
          assert s[1..][k] == s[k + 1];
        }
      }
      CountAbsent(s[1..], c);
    }
  }

  /** The position of the first `c` in `s`, as `indexOf` finds it. */
  function IndexOf(s: string, c: char): (i: nat)
    requires c in s
    ensures i < |s| && s[i] == c && c !in s[..i]
    decreases |s|
  {
    if s[0] == c then 0
    else
      var j := IndexOf(s[1..], c);
      assert s[..j + 1] == [s[0]] + s[1..][..j];
      j + 1
  }

  /** A position holding `c` with no `c` before it is the one `IndexOf` finds. */
  lemma IndexOfFirst(s: string, c: char, k: nat)
    requires k < |s| && s[k] == c && c !in s[..k]
    ensures c in s && IndexOf(s, c) == k
  {
    var i := IndexOf(s, c);
    forall m | 0 <= m < k ensures s[m] != c {
      assert s[..k][m] == s[m];
    }
    forall m | 0 <= m < i ensures s[m] != c {
      assert s[..i][m] == s[m];
    }
  }

  /** `s.split(sep)` for a one-character separator: the pieces between
      consecutive separators, from left to right. */
  function SplitOn(s: string, sep: char): (parts: seq<string>)
    ensures |parts| >= 1
    decreases |s|
  {
    if sep !in s then [s]
    else
      var i := IndexOf(s, sep);
      [s[..i]] + SplitOn(s[i + 1..], sep)
  }

  /** A leading separator splits off an empty first piece. */
  lemma SplitOnSepCons(t: string, sep: char)
    ensures SplitOn([sep] + t, sep) == [""] + SplitOn(t, sep)
  {
    var s := [sep] + t;
    assert s[..0] == "" && s[1..] == t;
    IndexOfFirst(s, sep, 0);
  }

  /** Any other leading character joins the first piece. */
  lemma SplitOnCons(c: char, t: string, sep: char)
    requires c != sep
    ensures SplitOn([c] + t, sep) == [[c] + SplitOn(t, sep)[0]] + SplitOn(t, sep)[1..]
  {
    var s := [c] + t;
    if sep !in t {
      assert sep !in s by {
        forall k | 0 <= k < |s| ensures s[k] != sep {
          if k > 0 { assert s[k] == t[k - 1]; }
        }
      }
    } else {
      var j := IndexOf(t, sep);
      assert s[..j + 1] == [c] + t[..j];
      assert s[j + 1] == sep;
      var head := s[..j + 1];
      assert sep !in head by {
        forall k | 0 <= k < |head| ensures head[k] != sep {
          if k > 0 { assert head[k] == t[..j][k - 1]; }
        }
      }
      IndexOfFirst(s, sep, j + 1);
      assert s[j + 2..] == t[j + 1..];
      assert SplitOn(s, sep) == [s[..j + 1]] + SplitOn(s[j + 2..], sep);
      assert SplitOn(t, sep) == [t[..j]] + SplitOn(t[j + 1..], sep);
    }
  }

  /** `parts.join(sep)`. */
  function Join(parts: seq<string>, sep: char): (r: string)
    ensures parts != [] ==> Count(r, sep) >= |parts| - 1
    decreases |parts|
  {
    if parts == [] then ""
    else if |parts| == 1 then parts[0]
    else
      var rest := Join(parts[1..], sep);
      CountAppend(parts[0] + [sep], rest, sep);
      CountAppend(parts[0], [sep], sep);
      parts[0] + [sep] + rest
  }

  /** No piece of a split contains the separator. */
  lemma {:induction false} SplitOnPiecesFree(s: string, sep: char)
    ensures forall k :: 0 <= k < |SplitOn(s, sep)| ==> sep !in SplitOn(s, sep)[k]
    decreases |s|
  {
    if sep in s {
      var i := IndexOf(s, sep);
      SplitOnPiecesFree(s[i + 1..], sep);
      assert SplitOn(s, sep) == [s[..i]] + SplitOn(s[i + 1..], sep);
    }
  }

  /** Splitting on `sep` yields one piece more than `s` has separators. */
  lemma {:induction false} SplitOnCount(s: string, sep: char)
    ensures |SplitOn(s, sep)| == Count(s, sep) + 1
    decreases |s|
  {
    if sep !in s {
      CountAbsent(s, sep);
    } else {
      var i := IndexOf(s, sep);
      SplitOnCount(s[i + 1..], sep);
      assert s == s[..i] + ([sep] + s[i + 1..]);
      CountAppend(s[..i], [sep] + s[i + 1..], sep);
      CountAbsent(s[..i], sep);
      assert ([sep] + s[i + 1..])[1..] == s[i + 1..];
    }
  }

  /** Joining the pieces of a split with the same separator restores the input. */
  lemma {:induction false} JoinSplitOn(s: string, sep: char)
    ensures Join(SplitOn(s, sep), sep) == s
    decreases |s|
  {
    if sep in s {
      var i := IndexOf(s, sep);
      var head, tail := s[..i], s[i + 1..];
      var rest := SplitOn(tail, sep);
      JoinSplitOn(tail, sep);
      assert SplitOn(s, sep) == [head] + rest;
      JoinCons(head, rest, sep);
      assert s == head + [sep] + tail;
    }
  }

  /** Joining a piece in front of a non-empty list puts one separator between. */
  lemma JoinCons(head: string, rest: seq<string>, sep: char)
    requires rest != []
    ensures Join([head] + rest, sep) == head + [sep] + Join(rest, sep)
  {
    var parts := [head] + rest;
    assert |parts| >= 2 && parts[0] == head && parts[1..] == rest;
  }

  /** Splitting a join of separator-free pieces gives the pieces back. */
  lemma {:induction false} SplitOnJoin(parts: seq<string>, sep: char)
    requires |parts| >= 1
    requires forall k :: 0 <= k < |parts| ==> sep !in parts[k]
    ensures SplitOn(Join(parts, sep), sep) == parts
    decreases |parts|
  {
    if |parts| > 1 {
      var head, tail := parts[0], Join(parts[1..], sep);
      var s := head + [sep] + tail;
      assert Join(parts, sep) == s;
      assert s[..|head|] == head;
      assert s[|head|] == sep;
      IndexOfFirst(s, sep, |head|);
      assert s[|head| + 1..] == tail;
      assert SplitOn(s, sep) == [head] + SplitOn(tail, sep);
      SplitOnJoin(parts[1..], sep);
      assert parts == [head] + parts[1..];
    }
  }

  /** A character of `s` other than the separator lies in some piece of the split. */
  lemma {:induction false} SplitOnCovers(s: string, sep: char, k: nat)
    requires k < |s| && s[k] != sep
    ensures exists j :: 0 <= j < |SplitOn(s, sep)| && s[k] in SplitOn(s, sep)[j]
    decreases |s|
  {
    if sep !in s {
      assert SplitOn(s, sep)[0] == s;
    } else {
      var i := IndexOf(s, sep);
      var tail := s[i + 1..];
      var rest := SplitOn(tail, sep);
      var parts := SplitOn(s, sep);
      assert parts == [s[..i]] + rest;
      if k < i {
        assert parts[0] == s[..i] && parts[0][k] == s[k];
      } else {
        assert k > i && tail[k - i - 1] == s[k];
        SplitOnCovers(tail, sep, k - i - 1);
        var j :| 0 <= j < |rest| && s[k] in rest[j];
        assert parts[j + 1] == rest[j];
      }
    }
  }

  /** Every piece of a split is made of characters of `s`. */
  lemma {:induction false} SplitOnWithin(s: string, sep: char)
    ensures forall j, c :: 0 <= j < |SplitOn(s, sep)| && c in SplitOn(s, sep)[j] ==> c in s
    decreases |s|
  {
    if sep in s {
      var i := IndexOf(s, sep);
      var parts := SplitOn(s, sep);
      SplitOnWithin(s[i + 1..], sep);
      forall j, c | 0 <= j < |parts| && c in parts[j] ensures c in s {
        if j == 0 {
          var m :| 0 <= m < i && s[..i][m] == c;
          assert s[m] == c;
        } else {
          assert parts[j] == SplitOn(s[i + 1..], sep)[j - 1];
          assert c in s[i + 1..];
          var m :| 0 <= m < |s[i + 1..]| && s[i + 1..][m] == c;
          assert s[i + 1 + m] == c;
        }
      }
    }
  }
}
