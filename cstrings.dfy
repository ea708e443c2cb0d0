/**
 * NUL-terminated character buffers and the C library scanning routines the
 * shell relies on: strspn, strcspn and strtok (with glibc's semantics, the
 * hidden save pointer made an explicit cursor).
 */
module CStrings {
  import opened Options

  const NUL: char := '\0'

  /** The contents of a C string: it cannot hold its own terminator. */
  type CString = s: string | NUL !in s

  /** strspn: length of the longest prefix of s made only of characters in accept. */
  function Span(s: string, accept: set<char>): (n: nat)
    ensures n <= |s|
    ensures forall k :: 0 <= k < n ==> s[k] in accept
    ensures n < |s| ==> s[n] !in accept
  {
    if s == [] || s[0] !in accept then 0 else 1 + Span(s[1..], accept)
  }

  /** strcspn: length of the longest prefix of s with no character in reject. */
  function CSpan(s: string, reject: set<char>): (n: nat)
    ensures n <= |s|
    ensures forall k :: 0 <= k < n ==> s[k] !in reject
    ensures n < |s| ==> s[n] in reject
  {
    if s == [] || s[0] in reject then 0 else 1 + CSpan(s[1..], reject)
  }

  /** The C string a buffer holds: everything before its first NUL. */
  function UpToNul(s: string): (r: CString)
  {
    if s == [] || s[0] == NUL then [] else [s[0]] + UpToNul(s[1..])
  }

  /** A buffer position from which a terminator is reachable. */
  predicate Terminated(b: seq<char>, i: nat)
  {
    i < |b| && NUL in b[i..]
  }

  /** The C string that starts at position i of buffer b (what a `char *` to b + i denotes). */
  function CStringAt(b: seq<char>, i: nat): CString
    requires i <= |b|
  {
    UpToNul(b[i..])
  }

  /** A strtok token: non-empty and free of delimiters. */
  predicate IsToken(t: string, delims: set<char>)
  {
    t != [] && forall k :: 0 <= k < |t| ==> t[k] !in delims
  }

  /**
   * The tokens that successive strtok calls return on s: delimiters are
   * skipped, and each maximal run of non-delimiters (its length is strcspn's
   * answer) is one token. Empty fields are never produced.
   */
  function Split(s: CString, delims: set<char>): (tokens: seq<CString>)
    decreases |s|
  {
    if s == [] then []
    else if s[0] in delims then Split(s[1..], delims)
    else
      var n := CSpan(s, delims);
      [s[..n]] + Split(s[n..], delims)
  }

  /** Every field Split produces is a proper token: non-empty, without delimiters. */
  lemma {:induction false} SplitTokens(s: CString, delims: set<char>)
    ensures forall t <- Split(s, delims) :: IsToken(t, delims)
    decreases |s|
  {
    if s != [] {
      if s[0] in delims {
        SplitTokens(s[1..], delims);
      } else {
        var n := CSpan(s, delims);
        SplitTokens(s[n..], delims);
        assert IsToken(s[..n], delims) by {
          assert forall k :: 0 <= k < n ==> s[..n][k] == s[k];
        }
      }
    }
  }

  /** strtok finds no token exactly when the string holds only delimiters. */
  lemma {:induction false} SplitEmptyIff(s: CString, delims: set<char>)
    ensures Split(s, delims) == [] <==> forall k :: 0 <= k < |s| ==> s[k] in delims
    decreases |s|
  {
    if s != [] && s[0] in delims {
      SplitEmptyIff(s[1..], delims);
      assert forall k :: 1 <= k < |s| ==> s[k] == s[1..][k - 1];
    }
  }

  /** The inverse of Split: tokens separated by single occurrences of sep. */
  function Join(tokens: seq<CString>, sep: char): CString
    requires sep != NUL
  {
    if tokens == [] then []
    else if |tokens| == 1 then tokens[0]
    else tokens[0] + [sep] + Join(tokens[1..], sep)
  }

  /** A leading delimiter contributes nothing. */
  lemma SplitSkipDelim(d: char, s: CString, delims: set<char>)
    requires d in delims && d != NUL
    ensures Split([d] + s, delims) == Split(s, delims)
  {
    assert ([d] + s)[1..] == s;
  }

  /** A token followed by the end of the string or by a delimiter is the first token. */
  lemma SplitToken(t: CString, rest: CString, delims: set<char>)
    requires IsToken(t, delims)
    requires rest == [] || rest[0] in delims
    ensures Split(t + rest, delims) == [t] + Split(rest, delims)
  {
    var s: CString := t + rest;
    assert s[0] == t[0];
    assert CSpan(s, delims) == |t| by {
      assert forall k :: 0 <= k < |t| ==> s[k] == t[k];
      if |t| < |s| { assert s[|t|] == rest[0]; }
    }
    assert s[..|t|] == t && s[|t|..] == rest;
  }

  /** Splitting is additive across a delimiter: doubled, leading and trailing separators vanish. */
  lemma {:induction false} SplitConcat(a: CString, d: char, b: CString, delims: set<char>)
    requires d in delims && d != NUL
    ensures Split(a + [d] + b, delims) == Split(a, delims) + Split(b, delims)
    decreases |a|
  {
    if a == [] {
      assert a + [d] + b == [d] + b;
      SplitSkipDelim(d, b, delims);
    } else if a[0] in delims {
      SplitConcat(a[1..], d, b, delims);
      ConcatAfterDelim(a, d, b, delims);
    } else {
      var n := CSpan(a, delims);
      var t: CString := a[..n];
      var a': CString := a[n..];
      assert IsToken(t, delims);
      assert a == t + a' && a + [d] + b == t + (a' + [d] + b);
      if a' != [] {
        SplitConcat(a', d, b, delims);
      }
      ConcatAfterToken(t, a', d, b, delims);
    }
  }

  /** A doubled delimiter splits like a single one. */
  lemma SplitDoubledDelim(a: CString, d: char, b: CString, delims: set<char>)
    requires d in delims && d != NUL
    ensures Split(a + [d, d] + b, delims) == Split(a + [d] + b, delims)
  {
    var db: CString := [d] + b;
    SplitConcat(a, d, db, delims);
    SplitConcat(a, d, b, delims);
    SplitSkipDelim(d, b, delims);
    assert a + [d, d] + b == a + [d] + db;
  }

  /** The step of SplitConcat for a string that starts with a delimiter. */
  lemma ConcatAfterDelim(a: CString, d: char, b: CString, delims: set<char>)
    requires d in delims && d != NUL && a != [] && a[0] in delims
    requires Split(a[1..] + [d] + b, delims) == Split(a[1..], delims) + Split(b, delims)
    ensures Split(a + [d] + b, delims) == Split(a, delims) + Split(b, delims)
  {
    var a': CString := a[1..];
    assert a == [a[0]] + a';
    assert a + [d] + b == [a[0]] + (a' + [d] + b);
    SplitSkipDelim(a[0], a' + [d] + b, delims);
    SplitSkipDelim(a[0], a', delims);
  }

  /** The step of SplitConcat for a string that starts with a token t. */
  lemma ConcatAfterToken(t: CString, a': CString, d: char, b: CString, delims: set<char>)
    requires d in delims && d != NUL && IsToken(t, delims)
    requires a' == [] || a'[0] in delims
    requires a' != [] ==> Split(a' + [d] + b, delims) == Split(a', delims) + Split(b, delims)
    ensures Split(t + (a' + [d] + b), delims) == Split(t + a', delims) + Split(b, delims)
  {
    SplitToken(t, a', delims);
    SplitToken(t, a' + [d] + b, delims);
    if a' == [] {
      assert a' + [d] + b == [d] + b;
      SplitSkipDelim(d, b, delims);
    }
  }

  /** Joining delimiter-free, non-empty fields and splitting again gives the fields back. */
  lemma {:induction false} SplitJoin(tokens: seq<CString>, sep: char, delims: set<char>)
    requires sep in delims && sep != NUL
    requires forall t <- tokens :: IsToken(t, delims)
    ensures Split(Join(tokens, sep), delims) == tokens
  {
    if tokens == [] {
    } else if |tokens| == 1 {
      SplitToken(tokens[0], [], delims);
      assert tokens[0] + [] == tokens[0];
    } else {
      var rest := Join(tokens[1..], sep);
      SplitToken(tokens[0], [sep] + rest, delims);
      SplitSkipDelim(sep, rest, delims);
      SplitJoin(tokens[1..], sep, delims);
      assert tokens[0] + [sep] + rest == tokens[0] + ([sep] + rest);
      assert tokens == [tokens[0]] + tokens[1..];
    }
  }

  /**
   * t occurs in s at position i as a maximal run of non-delimiters, and
   * everything before it is a delimiter.
   */
  predicate IsFirstRun(s: string, i: nat, t: string, delims: set<char>)
  {
    && i + |t| <= |s| && s[i..i + |t|] == t
    && (forall k :: 0 <= k < i ==> s[k] in delims)
    && (i + |t| == |s| || s[i + |t|] in delims)
  }

  /** The first token is the first maximal run of non-delimiters. */
  lemma {:induction false} SplitFirstRun(s: CString, delims: set<char>)
    requires Split(s, delims) != []
    ensures exists i :: IsFirstRun(s, i, Split(s, delims)[0], delims)
    decreases |s|
  {
    var t := Split(s, delims)[0];
    if s[0] in delims {
      SplitFirstRun(s[1..], delims);
      var i: nat :| IsFirstRun(s[1..], i, t, delims);
      assert s[i + 1..i + 1 + |t|] == s[1..][i..i + |t|];
      forall k | 0 <= k < i + 1 ensures s[k] in delims {
        if k > 0 { assert s[k] == s[1..][k - 1]; }
      }
      if i + 1 + |t| < |s| { assert s[i + 1 + |t|] == s[1..][i + |t|]; }
      assert IsFirstRun(s, i + 1, t, delims);
    } else {
      assert s[0..|t|] == t;
      assert IsFirstRun(s, 0, t, delims);
    }
  }

  /** The C string at position p of a buffer is the character there followed by the one at p + 1. */
  lemma CStringAtStep(b: seq<char>, p: nat)
    requires p < |b|
    ensures CStringAt(b, p) == if b[p] == NUL then [] else [b[p]] + CStringAt(b, p + 1)
  {
    assert b[p..][1..] == b[p + 1..];
  }

  /** Passing over a character other than NUL keeps the terminator ahead. */
  lemma TerminatedStep(b: seq<char>, p: nat)
    requires Terminated(b, p) && b[p] != NUL
    ensures Terminated(b, p + 1)
  {
    assert b[p..] == [b[p]] + b[p + 1..];
  }

  /** Passing over a delimiter does not change the tokens that remain. */
  lemma SkipDelimAt(b: seq<char>, p: nat, delims: set<char>)
    requires p < |b| && b[p] in delims && NUL !in delims
    ensures Split(CStringAt(b, p), delims) == Split(CStringAt(b, p + 1), delims)
  {
    CStringAtStep(b, p);
    SplitSkipDelim(b[p], CStringAt(b, p + 1), delims);
  }

  /** A run of characters other than NUL is the start of the C string it begins. */
  lemma ScanRun(b: seq<char>, from: nat, e: nat)
    requires from <= e < |b|
    requires forall k :: from <= k < e ==> b[k] != NUL
    ensures CStringAt(b, from) == b[from..e] + CStringAt(b, e)
  {
    var run := b[from..e];
    assert NUL !in run by {
      assert forall i :: 0 <= i < |run| ==> run[i] == b[from + i];
    }
    assert b[from..] == run + b[e..];
    UpToNulSplit(run, b[e..]);
  }

  /**
   * strspn over the C string at buffer position `from`: the position of the
   * first character that is not a delimiter (possibly the terminator).
   * Skipping delimiters changes nothing about the tokens that remain.
   */
  method Strspn(buf: array<char>, from: nat, delims: set<char>) returns (p: nat)
    requires NUL !in delims
    requires Terminated(buf[..], from)
    ensures from <= p && Terminated(buf[..], p) && buf[p] !in delims
    ensures forall k :: from <= k < p ==> buf[k] in delims
    ensures Split(CStringAt(buf[..], p), delims) == Split(CStringAt(buf[..], from), delims)
  {
    ghost var b := buf[..];
    p := from;
    while buf[p] in delims
      invariant from <= p && Terminated(b, p)
      invariant forall k :: from <= k < p ==> b[k] in delims
      invariant Split(CStringAt(b, p), delims) == Split(CStringAt(b, from), delims)
      decreases buf.Length - p
    {
      TerminatedStep(b, p);
      SkipDelimAt(b, p, delims);
      p := p + 1;
    }
  }

  /**
   * strcspn over the C string at buffer position `from`: the position of the
   * first delimiter or of the terminator. What lies between is the start of
   * the C string.
   */
  method Strcspn(buf: array<char>, from: nat, delims: set<char>) returns (e: nat)
    requires NUL !in delims
    requires Terminated(buf[..], from)
    ensures from <= e && Terminated(buf[..], e)
    ensures buf[e] == NUL || buf[e] in delims
    ensures forall k :: from <= k < e ==> buf[k] != NUL && buf[k] !in delims
    ensures CStringAt(buf[..], from) == buf[from..e] + CStringAt(buf[..], e)
  {
    ghost var b := buf[..];
    e := from;
    while buf[e] != NUL && buf[e] !in delims
      invariant from <= e && Terminated(b, e)
      invariant forall k :: from <= k < e ==> b[k] != NUL && b[k] !in delims
      decreases buf.Length - e
    {
      TerminatedStep(b, e);
      e := e + 1;
    }
    ScanRun(b, from, e);
  }

  /**
   * A scanned run b[p..e] of non-delimiters that starts the C string at p
   * and stops at the terminator or at a delimiter is that string's first
   * token; the remaining tokens follow from e.
   */
  lemma TokenAt(b: seq<char>, p: nat, e: nat, delims: set<char>)
    requires NUL !in delims
    requires p < e < |b| && (b[e] == NUL || b[e] in delims)
    requires forall k :: p <= k < e ==> b[k] != NUL && b[k] !in delims
    requires CStringAt(b, p) == b[p..e] + CStringAt(b, e)
    ensures IsToken(b[p..e], delims)
    ensures Split(CStringAt(b, p), delims) == [b[p..e]] + Split(CStringAt(b, e), delims)
  {
    var t: CString := b[p..e];
    assert IsToken(t, delims);
    CStringAtStep(b, e);
    SplitToken(t, CStringAt(b, e), delims);
  }

  /** Writing NUL at e ends the C string at p there and leaves the one after e alone. */
  lemma TerminateAt(b: seq<char>, p: nat, e: nat)
    requires p <= e < |b|
    requires forall k :: p <= k < e ==> b[k] != NUL
    ensures CStringAt(b[e := NUL], p) == b[p..e]
    ensures CStringAt(b[e := NUL], e + 1) == CStringAt(b, e + 1)
  {
    var b' := b[e := NUL];
    assert b'[e + 1..] == b[e + 1..];
    var t: CString := b[p..e];
    assert b'[p..] == t + b'[e..];
    UpToNulSplit(t, b'[e..]);
    CStringAtStep(b', e);
  }

  /**
   * strtok(s, delims) when s is the C string at buffer position `from`
   * (strtok(NULL, delims) when `from` is the saved cursor). Skips delimiters;
   * if the string ends there, returns NULL. Otherwise returns the token
   * starting at `start`, overwrites the delimiter that ends it (if any) with
   * NUL, and leaves the cursor just past it.
   */
  method Strtok(buf: array<char>, from: nat, delims: set<char>)
    returns (tok: Option<CString>, start: nat, next: nat)
    requires NUL !in delims
    requires Terminated(buf[..], from)
    modifies buf
    ensures Terminated(buf[..], next)
    ensures var tokens := Split(CStringAt(old(buf[..]), from), delims);
      && (tok.None? <==> tokens == [])
      && (tok.Some? ==> start < buf.Length && tok.value == tokens[0]
                        && CStringAt(buf[..], start) == tok.value)
      && Split(CStringAt(buf[..], next), delims) == if tokens == [] then [] else tokens[1..]
    ensures tok.Some? ==> from <= start && forall k :: from <= k < start ==> old(buf[k]) in delims
    ensures tok.None? ==> buf[..] == old(buf[..])
    ensures tok.Some? ==>
      var e := start + |tok.value|;
      && e < buf.Length
      && if old(buf[e]) == NUL then next == e && buf[..] == old(buf[..])
         else next == e + 1 && old(buf[e]) in delims && buf[..] == old(buf[..])[e := NUL]
  {
    ghost var b := buf[..];
    var p := Strspn(buf, from, delims);
    if buf[p] == NUL {
      CStringAtStep(b, p);
      tok, start, next := None, p, p;
      return;
    }
    var e := Strcspn(buf, p, delims);
    TokenAt(b, p, e, delims);
    var t: CString := buf[p..e];
    tok, start := Some(t), p;
    if buf[e] == NUL {
      next := e;
      CStringAtStep(b, e);
      assert t + [] == t;
    } else {
      ghost var b' := b[e := NUL];
      SkipDelimAt(b, e, delims);
      TerminateAt(b, p, e);
      assert NUL in b'[e + 1..] by { assert b'[e + 1..] == b[e + 1..]; }
      buf[e] := NUL;
      next := e + 1;
      assert buf[..] == b';
    }
  }

  /**
   * strtok as a tokenizing loop sees it: the token returned and the tokens
   * still ahead of the cursor, without the details of the buffer write.
   */
  method NextToken(buf: array<char>, from: nat, delims: set<char>)
    returns (tok: Option<CString>, next: nat)
    requires NUL !in delims
    requires Terminated(buf[..], from)
    modifies buf
    ensures Terminated(buf[..], next)
    ensures var tokens := Split(CStringAt(old(buf[..]), from), delims);
      && (tok.None? <==> tokens == [])
      && (tok.Some? ==> tok.value == tokens[0])
      && Split(CStringAt(buf[..], next), delims) == if tokens == [] then [] else tokens[1..]
  {
    var start;
    tok, start, next := Strtok(buf, from, delims);
  }

  /** A NUL-free prefix does not affect where the C string ends. */
  lemma {:induction false} UpToNulSplit(a: string, c: string)
    requires NUL !in a
    ensures UpToNul(a + c) == a + UpToNul(c)
    decreases |a|
  {
    if a == [] {
      assert a + c == c;
    } else {
      assert (a + c)[1..] == a[1..] + c;
      UpToNulSplit(a[1..], c);
    }
  }

  /** A fresh NUL-terminated buffer holding s (the copy strdup and strcpy make). */
  method NewBuffer(s: string) returns (buf: array<char>)
    ensures fresh(buf) && buf[..] == s + [NUL]
    ensures Terminated(buf[..], 0) && CStringAt(buf[..], 0) == UpToNul(s)
  {
    buf := new char[|s| + 1](i => if 0 <= i < |s| then s[i] else NUL);
    assert buf[..] == s + [NUL];
    assert buf[..][0..] == buf[..];
    UpToNulNulSuffix(s);
  }

  /** Appending a terminator does not change the C string a buffer holds. */
  lemma {:induction false} UpToNulNulSuffix(s: string)
    ensures UpToNul(s + [NUL]) == UpToNul(s)
    decreases |s|
  {
    if s != [] {
      assert (s + [NUL])[0] == s[0];
      assert (s + [NUL])[1..] == s[1..] + [NUL];
      UpToNulNulSuffix(s[1..]);
    }
  }
}
