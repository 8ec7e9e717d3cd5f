/** Python's `str.strip()`, `str.split(sep)` and `sep.join(...)` on `seq<char>`, and the
    "strip every piece and drop the blank ones" comprehension the script uses twice
    (for the lines of the input file and for the `--old-runtimes` argument). */
module Text {
  import opened Sequences

  /** Python's `str.isspace()` for one character: the ASCII controls TAB..CR and
      FS..US, SPACE, and the Unicode space separators and line/paragraph separators. */
  predicate IsSpace(c: char) {
    || ('\U{9}' <= c <= '\U{D}')
    || ('\U{1C}' <= c <= '\U{20}')
    || c == '\U{85}' || c == '\U{A0}' || c == '\U{1680}'
    || ('\U{2000}' <= c <= '\U{200A}')
    || c == '\U{2028}' || c == '\U{2029}' || c == '\U{202F}' || c == '\U{205F}'
    || c == '\U{3000}'
  }

  predicate AllSpace(s: string) {
    forall i :: 0 <= i < |s| ==> IsSpace(s[i])
  }

  /** A string `strip()` leaves unchanged: empty, or with no space at either end. */
  predicate Stripped(s: string) {
    s == [] || (!IsSpace(s[0]) && !IsSpace(s[|s| - 1]))
  }

  /** `s.lstrip()`: the suffix of `s` that starts at its first non-space character. */
  function DropLeading(s: string): (r: string)
    ensures |r| <= |s| && r == s[|s| - |r|..]
    ensures AllSpace(s[..|s| - |r|])
    ensures r == [] || !IsSpace(r[0])
  {
    if |s| > 0 && IsSpace(s[0]) then
      var t := DropLeading(s[1..]);
      assert s[1..][|s| - 1 - |t|..] == s[|s| - |t|..];
      assert forall i :: 1 <= i < |s| - |t| ==> s[i] == s[1..][..|s| - 1 - |t|][i - 1];
      t
    else s
  }

  /** `s.rstrip()`: the prefix of `s` that ends at its last non-space character. */
  function DropTrailing(s: string): (r: string)
    ensures |r| <= |s| && r == s[..|r|]
    ensures AllSpace(s[|r|..])
    ensures r == [] || !IsSpace(r[|r| - 1])
  {
    if |s| > 0 && IsSpace(s[|s| - 1]) then
      var t := DropTrailing(s[..|s| - 1]);
      assert s[..|s| - 1][..|t|] == s[..|t|];
      assert forall i :: |t| <= i < |s| - 1 ==> s[i] == s[..|s| - 1][|t|..][i - |t|];
      t
    else s
  }

  /** `s.strip()`: `s` with its leading and trailing whitespace removed. The result is
      a contiguous piece of `s` between two all-space margins, with no space at either end. */
  function Strip(s: string): (r: string)
    ensures Stripped(r)
    ensures r == [] <==> AllSpace(s)
  {
    StripShape(s);
    DropTrailing(DropLeading(s))
  }

  lemma {:induction false} StripShape(s: string)
    ensures Stripped(DropTrailing(DropLeading(s)))
    ensures DropTrailing(DropLeading(s)) == [] <==> AllSpace(s)
  {
    var t := DropLeading(s);
    var r := DropTrailing(t);
    var k := |s| - |t|;
    if r == [] {
      assert t == t[|r|..];
      forall i | 0 <= i < |s| ensures IsSpace(s[i]) {
        assert s[i] == s[..k][i];
      }
    } else {
      assert s[k] == t[0];
    }
  }

  /** What `strip()` keeps is a contiguous piece of `s` between two all-space margins. */
  lemma {:induction false} StripInfix(s: string)
    ensures exists k :: 0 <= k <= |s| - |Strip(s)| && Strip(s) == s[k..k + |Strip(s)|]
                        && AllSpace(s[..k]) && AllSpace(s[k + |Strip(s)|..])
  {
    var t := DropLeading(s);
    var r := DropTrailing(t);
    var k := |s| - |t|;
    assert Strip(s) == r;
    assert r == s[k..k + |r|] by {
      assert t == s[k..] && r == t[..|r|];
    }
    assert AllSpace(s[k + |r|..]) by {
      assert s[k + |r|..] == t[|r|..];
    }
  }

  /** `strip()` only removes characters, so it never introduces one. */
  lemma {:induction false} StripKeepsOut(s: string, c: char)
    requires c !in s
    ensures c !in Strip(s)
  {
    StripInfix(s);
  }

  /** Stripping a padded stripped string gives back exactly the string inside the padding. */
  lemma {:induction false} StripPadded(pre: string, core: string, post: string)
    requires AllSpace(pre) && AllSpace(post) && Stripped(core)
    ensures Strip(pre + core + post) == core
  {
    if core == [] {
      assert pre + core + post == pre + post;
      AllSpaceAppend(pre, post);
    } else {
      var s := pre + core + post;
      assert s == pre + (core + post);
      assert (core + post)[0] == core[0];
      DropLeadingSkipsSpace(pre, core + post);
      DropTrailingSkipsSpace(core, post);
      assert Strip(s) == DropTrailing(DropLeading(s));
    }
  }

  lemma {:induction false} AllSpaceAppend(a: string, b: string)
    requires AllSpace(a) && AllSpace(b)
    ensures AllSpace(a + b)
  {
    forall i | 0 <= i < |a + b| ensures IsSpace((a + b)[i]) {
      if i < |a| { assert (a + b)[i] == a[i]; } else { assert (a + b)[i] == b[i - |a|]; }
    }
  }

  /** `strip()` is idempotent. */
  lemma {:induction false} StripIdempotent(s: string)
    ensures Strip(Strip(s)) == Strip(s)
  {
    StripOfStripped(Strip(s));
  }

  lemma {:induction false} DropLeadingSkipsSpace(pre: string, rest: string)
    requires AllSpace(pre) && (rest == [] || !IsSpace(rest[0]))
    ensures DropLeading(pre + rest) == rest
    decreases |pre|
  {
    if pre == [] {
      assert pre + rest == rest;
    } else {
      assert (pre + rest)[1..] == pre[1..] + rest;
      DropLeadingSkipsSpace(pre[1..], rest);
    }
  }

  lemma {:induction false} DropTrailingSkipsSpace(rest: string, post: string)
    requires AllSpace(post) && (rest == [] || !IsSpace(rest[|rest| - 1]))
    ensures DropTrailing(rest + post) == rest
    decreases |post|
  {
    if post == [] {
      assert rest + post == rest;
    } else {
      assert (rest + post)[..|rest + post| - 1] == rest + post[..|post| - 1];
      DropTrailingSkipsSpace(rest, post[..|post| - 1]);
    }
  }

  /** Python's `sep.join(pieces)`. */
  function Join(pieces: seq<string>, sep: char): string
    decreases |pieces|
  {
    if |pieces| == 0 then []
    else if |pieces| == 1 then pieces[0]
    else pieces[0] + [sep] + Join(pieces[1..], sep)
  }

  /** Python's `s.split(sep)` for a one-character separator: the pieces between the
      separators, never none (an empty `s` gives one empty piece), none containing
      `sep`, and joining them with `sep` gives `s` back. */
  function Split(s: string, sep: char): (r: seq<string>)
    ensures |r| >= 1
    ensures forall i :: 0 <= i < |r| ==> sep !in r[i]
    ensures Join(r, sep) == s
    decreases |s|
  {
    if |s| == 0 then [[]]
    else
      var rest := Split(s[1..], sep);
      if s[0] == sep then
        assert s == [sep] + s[1..];
        [[]] + rest
      else
        var r := [[s[0]] + rest[0]] + rest[1..];
        assert r[1..] == rest[1..];
        assert s == [s[0]] + s[1..];
        r
  }

  /** Splitting the join of separator-free pieces gives the pieces back. */
  lemma {:induction false} SplitJoin(pieces: seq<string>, sep: char)
    requires |pieces| >= 1
    requires forall i :: 0 <= i < |pieces| ==> sep !in pieces[i]
    ensures Split(Join(pieces, sep), sep) == pieces
    decreases |pieces|
  {
    if |pieces| == 1 {
      SplitNoSep(pieces[0], sep);
    } else {
      SplitJoin(pieces[1..], sep);
      SplitAtFirst(pieces[0], Join(pieces[1..], sep), sep);
      assert [pieces[0]] + pieces[1..] == pieces;
    }
  }

  lemma {:induction false} SplitNoSep(s: string, sep: char)
    requires sep !in s
    ensures Split(s, sep) == [s]
    decreases |s|
  {
    if |s| > 0 {
      SplitNoSep(s[1..], sep);
      assert [s[0]] + s[1..] == s;
    }
  }

  lemma {:induction false} SplitAtFirst(x: string, y: string, sep: char)
    requires sep !in x
    ensures Split(x + [sep] + y, sep) == [x] + Split(y, sep)
    decreases |x|
  {
    if x == [] {
      assert x + [sep] + y == [sep] + y;
      assert ([sep] + y)[1..] == y;
    } else {
      var s := x + [sep] + y;
      assert s[1..] == x[1..] + [sep] + y;
      SplitAtFirst(x[1..], y, sep);
      assert [x[0]] + x[1..] == x;
    }
  }

  /** `[p.strip() for p in pieces if p.strip()]`: every kept piece is non-blank and
      stripped, and the kept pieces are the stripped pieces in their original order. */
  function StripNonBlank(pieces: seq<string>): (r: seq<string>)
    ensures forall x :: x in r ==> x != [] && Stripped(x)
    decreases |pieces|
  {
    if |pieces| == 0 then []
    else
      var head, rest := Strip(pieces[0]), StripNonBlank(pieces[1..]);
      if head == [] then rest else [head] + rest
  }

  /** The kept pieces are the stripped pieces, in order, with only blank ones
      removed: every non-empty stripped piece is kept, as often as it occurs. */
  lemma {:induction false} StripNonBlankSubseq(pieces: seq<string>)
    ensures IsSubseq(StripNonBlank(pieces), StripAll(pieces))
    ensures forall x :: multiset(StripNonBlank(pieces))[x]
                        == if x == [] then 0 else multiset(StripAll(pieces))[x]
    decreases |pieces|
  {
    StripNonBlankCounts(pieces);
    if |pieces| > 0 {
      var head := Strip(pieces[0]);
      var rest := StripNonBlank(pieces[1..]);
      var all := StripAll(pieces[1..]);
      StripNonBlankSubseq(pieces[1..]);
      assert StripAll(pieces) == [head] + all;
      if head == [] {
        assert StripNonBlank(pieces) == rest;
        SubseqSkip(head, rest, all);
      } else {
        assert StripNonBlank(pieces) == [head] + rest;
        SubseqCons(head, rest, all);
      }
    }
  }

  /** Each non-empty stripped piece is kept as often as it occurs; nothing else is. */
  lemma {:induction false} StripNonBlankCounts(pieces: seq<string>)
    ensures forall x :: multiset(StripNonBlank(pieces))[x]
                        == if x == [] then 0 else multiset(StripAll(pieces))[x]
    decreases |pieces|
  {
    if |pieces| > 0 {
      var head := Strip(pieces[0]);
      var rest := StripNonBlank(pieces[1..]);
      var all := StripAll(pieces[1..]);
      StripNonBlankCounts(pieces[1..]);
      assert StripAll(pieces) == [head] + all;
      assert multiset(StripAll(pieces)) == multiset([head]) + multiset(all);
      if head == [] {
        assert StripNonBlank(pieces) == rest;
      } else {
        assert StripNonBlank(pieces) == [head] + rest;
        assert multiset([head] + rest) == multiset([head]) + multiset(rest);
      }
    }
  }

  /** `[p.strip() for p in pieces]`. */
  function StripAll(pieces: seq<string>): (r: seq<string>)
    ensures |r| == |pieces|
    decreases |pieces|
  {
    if |pieces| == 0 then [] else [Strip(pieces[0])] + StripAll(pieces[1..])
  }

  /** The i-th stripped piece is the i-th piece, stripped. */
  lemma {:induction false} StripAllAt(pieces: seq<string>, i: nat)
    requires i < |pieces|
    ensures StripAll(pieces)[i] == Strip(pieces[i])
    decreases i
  {
    if i > 0 {
      StripAllAt(pieces[1..], i - 1);
    }
  }

  /** A character that no piece contains is in no kept piece either. */
  lemma {:induction false} StripNonBlankKeepsOut(pieces: seq<string>, c: char)
    requires forall x :: x in pieces ==> c !in x
    ensures forall x :: x in StripNonBlank(pieces) ==> c !in x
    decreases |pieces|
  {
    if |pieces| > 0 {
      var rest := StripNonBlank(pieces[1..]);
      assert forall x :: x in rest ==> c !in x by {
        StripNonBlankKeepsOut(pieces[1..], c);
      }
      assert c !in Strip(pieces[0]) by {
        StripKeepsOut(pieces[0], c);
      }
    }
  }

  /** Pieces that are already non-blank and stripped pass through unchanged. */
  lemma {:induction false} StripNonBlankClean(pieces: seq<string>)
    requires forall i :: 0 <= i < |pieces| ==> pieces[i] != [] && Stripped(pieces[i])
    ensures StripNonBlank(pieces) == pieces
    decreases |pieces|
  {
    if |pieces| > 0 {
      var head, tail := pieces[0], pieces[1..];
      assert Strip(head) == head by {
        StripOfStripped(head);
      }
      assert StripNonBlank(tail) == tail by {
        forall i | 0 <= i < |tail| ensures tail[i] != [] && Stripped(tail[i]) {
          assert tail[i] == pieces[i + 1];
        }
        StripNonBlankClean(tail);
      }
      assert [head] + tail == pieces;
    }
  }

  /** A stripped string is its own `strip()`. */
  lemma {:induction false} StripOfStripped(x: string)
    requires Stripped(x)
    ensures Strip(x) == x
  {
    assert DropLeading(x) == x;
    assert DropTrailing(x) == x;
  }

  /** Whitespace-only pieces contribute nothing; the rest keep their relative order. */
  lemma {:induction false} StripNonBlankAppend(xs: seq<string>, ys: seq<string>)
    ensures StripNonBlank(xs + ys) == StripNonBlank(xs) + StripNonBlank(ys)
    decreases |xs|
  {
    if xs == [] {
      assert xs + ys == ys;
    } else {
      assert (xs + ys)[0] == xs[0];
      assert (xs + ys)[1..] == xs[1..] + ys;
      StripNonBlankAppend(xs[1..], ys);
    }
  }

  /** A piece made only of whitespace is dropped. */
  lemma {:induction false} StripNonBlankDropsBlank(x: string, ys: seq<string>)
    requires AllSpace(x)
    ensures StripNonBlank([x] + ys) == StripNonBlank(ys)
  {
    assert ([x] + ys)[1..] == ys;
  }
}
