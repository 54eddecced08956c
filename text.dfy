/**
 * The Python string operations the feature-text pipeline of app.py relies on:
 * `str.split()` with no argument, `" ".join(...)`, `str.replace(" ", "")` and
 * `str.lower()`.
 */
module Text {

  /** The characters for which Python's `str.isspace()` holds; `str.split()`
      with no argument splits on runs of these. */
  predicate IsSpace(c: char) {
    c == ' ' || ('\t' <= c <= '\r') || ('\U{1C}' <= c <= '\U{1F}')
    || c == '\U{85}' || c == '\U{A0}' || c == '\U{1680}'
    || ('\U{2000}' <= c <= '\U{200A}') || c == '\U{2028}' || c == '\U{2029}'
    || c == '\U{202F}' || c == '\U{205F}' || c == '\U{3000}'
  }

  /** A token as `str.split()` yields it: non-empty, with no whitespace in it. */
  predicate IsToken(t: string) {
    |t| > 0 && forall i :: 0 <= i < |t| ==> !IsSpace(t[i])
  }

  predicate AllTokens(ts: seq<string>) {
    forall k :: 0 <= k < |ts| ==> IsToken(ts[k])
  }

  /** Length of the run of non-whitespace characters at the start of `s`. */
  function WordLen(s: string): (n: nat)
    ensures n <= |s|
    ensures forall i :: 0 <= i < n ==> !IsSpace(s[i])
    ensures n == |s| || IsSpace(s[n])
  {
    if s == [] || IsSpace(s[0]) then 0 else 1 + WordLen(s[1..])
  }

  /** `s.split()`: the maximal runs of non-whitespace characters, in order;
      leading, trailing and repeated whitespace produce no empty tokens. */
  function Split(s: string): (ts: seq<string>)
    ensures AllTokens(ts)
    decreases |s|
  {
    if s == [] then []
    else if IsSpace(s[0]) then Split(s[1..])
    else
      var n := WordLen(s);
      [s[..n]] + Split(s[n..])
  }

  /** `" ".join(ts)`: the words with exactly one blank between neighbours. */
  function Join(ts: seq<string>): (s: string)
    ensures ts == [] ==> s == ""
    ensures ts != [] ==> |s| == |Concat(ts)| + |ts| - 1
  {
    if |ts| == 0 then ""
    else if |ts| == 1 then ts[0]
    else ts[0] + " " + Join(ts[1..])
  }

  /** The characters of `s` that are not whitespace, in order. */
  function NonSpace(s: string): string {
    if s == [] then [] else (if IsSpace(s[0]) then [] else [s[0]]) + NonSpace(s[1..])
  }

  /** All tokens of a list, concatenated. */
  function Concat(ts: seq<string>): string {
    if ts == [] then [] else ts[0] + Concat(ts[1..])
  }

  /** `t.replace(" ", "")`: every blank removed, everything else kept in order. */
  function DropBlanks(t: string): (r: string)
    ensures |r| <= |t|
    ensures forall i :: 0 <= i < |r| ==> r[i] != ' '
    ensures (forall i :: 0 <= i < |t| ==> t[i] != ' ') ==> r == t
  {
    if t == [] then []
    else (if t[0] == ' ' then [] else [t[0]]) + DropBlanks(t[1..])
  }

  /** `str.lower()` on one character, for the ASCII letters. */
  function LowerChar(c: char): char {
    if 'A' <= c <= 'Z' then (c as int + 32) as char else c
  }

  /** `s.lower()`, character by character. */
  function Lower(s: string): (r: string)
    ensures |r| == |s|
    ensures forall i :: 0 <= i < |r| ==> !('A' <= r[i] <= 'Z')
    ensures forall i :: 0 <= i < |r| ==> (IsSpace(r[i]) <==> IsSpace(s[i]))
  {
    seq(|s|, i requires 0 <= i < |s| => LowerChar(s[i]))
  }

  function LowerAll(ts: seq<string>): seq<string> {
    seq(|ts|, k requires 0 <= k < |ts| => Lower(ts[k]))
  }

  /** The first word ends exactly at the first whitespace character. */
  lemma {:induction false} WordLenAt(s: string, n: nat)
    requires n <= |s|
    requires forall i :: 0 <= i < n ==> !IsSpace(s[i])
    requires n == |s| || IsSpace(s[n])
    ensures WordLen(s) == n
  {
    if n > 0 {
      WordLenAt(s[1..], n - 1);
    }
  }

  /** A token is a word on its own: splitting it gives it back. */
  lemma SplitToken(t: string)
    requires IsToken(t)
    ensures Split(t) == [t]
  {
    WordLenAt(t, |t|);
    assert t[..|t|] == t;
    assert t[|t|..] == [];
  }

  /** Whitespace in front of a text adds no token. */
  lemma SplitBlankPrefix(s: string)
    ensures Split(" " + s) == Split(s)
  {
    assert (" " + s)[1..] == s;
  }

  /** A token followed by whitespace is split off as the first word. */
  lemma SplitTokenThenBlank(t: string, rest: string)
    requires IsToken(t)
    ensures Split(t + " " + rest) == [t] + Split(rest)
  {
    var s := t + " " + rest;
    assert s[..|t|] == t;
    assert s[|t|..] == " " + rest;
    WordLenAt(s, |t|);
    SplitBlankPrefix(rest);
  }

  /** Joining tokens with single blanks and splitting again gives the tokens back. */
  lemma {:induction false} SplitJoin(ts: seq<string>)
    requires AllTokens(ts)
    ensures Split(Join(ts)) == ts
  {
    if |ts| == 0 {
    } else if |ts| == 1 {
      SplitToken(ts[0]);
    } else {
      SplitTokenThenBlank(ts[0], Join(ts[1..]));
      SplitJoin(ts[1..]);
      assert ts == [ts[0]] + ts[1..];
    }
  }

  lemma NonSpaceAppend(a: string, b: string)
    ensures NonSpace(a + b) == NonSpace(a) + NonSpace(b)
  {
    if a == [] {
      assert a + b == b;
    } else {
      assert (a + b)[1..] == a[1..] + b;
      NonSpaceAppend(a[1..], b);
    }
  }

  lemma NonSpaceOfToken(t: string)
    requires forall i :: 0 <= i < |t| ==> !IsSpace(t[i])
    ensures NonSpace(t) == t
  {
    if t != [] {
      NonSpaceOfToken(t[1..]);
      assert t == [t[0]] + t[1..];
    }
  }

  /** Splitting loses exactly the whitespace: the tokens, put back together,
      are the non-whitespace characters of the text in their order. */
  lemma {:induction false} SplitKeepsNonSpace(s: string)
    ensures Concat(Split(s)) == NonSpace(s)
    decreases |s|
  {
    if s == [] {
    } else if IsSpace(s[0]) {
      SplitKeepsNonSpace(s[1..]);
    } else {
      var n := WordLen(s);
      assert s == s[..n] + s[n..];
      NonSpaceAppend(s[..n], s[n..]);
      NonSpaceOfToken(s[..n]);
      SplitKeepsNonSpace(s[n..]);
      var ts := Split(s);
      assert ts[0] == s[..n] && ts[1..] == Split(s[n..]);
    }
  }

  /** Two texts with whitespace at the same places have words of the same length. */
  lemma {:induction false} WordLenSameShape(s: string, u: string)
    requires |s| == |u|
    requires forall i :: 0 <= i < |s| ==> (IsSpace(s[i]) <==> IsSpace(u[i]))
    ensures WordLen(s) == WordLen(u)
  {
    if s != [] && !IsSpace(s[0]) {
      WordLenSameShape(s[1..], u[1..]);
    }
  }

  lemma LowerSlice(s: string, a: nat, b: nat)
    requires a <= b <= |s|
    ensures Lower(s)[a..b] == Lower(s[a..b])
  {
  }

  lemma LowerAllCons(t: string, ts: seq<string>)
    ensures LowerAll([t] + ts) == [Lower(t)] + LowerAll(ts)
  {
  }

  lemma SplitLowerBlank(s: string)
    requires s != [] && IsSpace(s[0])
    requires Split(Lower(s[1..])) == LowerAll(Split(s[1..]))
    ensures Split(Lower(s)) == LowerAll(Split(s))
  {
    var l := Lower(s);
    assert IsSpace(l[0]);
    LowerSlice(s, 1, |s|);
    assert s[1..|s|] == s[1..] && l[1..|l|] == l[1..];
  }

  lemma SplitLowerWord(s: string, n: nat)
    requires s != [] && !IsSpace(s[0]) && n == WordLen(s)
    requires Split(Lower(s[n..])) == LowerAll(Split(s[n..]))
    ensures Split(Lower(s)) == LowerAll(Split(s))
  {
    var l := Lower(s);
    WordLenSameShape(s, l);
    assert !IsSpace(l[0]);
    LowerSlice(s, 0, n);
    LowerSlice(s, n, |s|);
    assert s[0..n] == s[..n] && l[0..n] == l[..n];
    assert s[n..|s|] == s[n..] && l[n..|l|] == l[n..];
    LowerAllCons(s[..n], Split(s[n..]));
  }

  /** Lower-casing a text lower-cases each of its tokens and keeps their number
      and order. */
  lemma {:induction false} SplitLower(s: string)
    ensures Split(Lower(s)) == LowerAll(Split(s))
    decreases |s|
  {
    if s == [] {
    } else if IsSpace(s[0]) {
      SplitLower(s[1..]);
      SplitLowerBlank(s);
    } else {
      var n := WordLen(s);
      SplitLower(s[n..]);
      SplitLowerWord(s, n);
    }
  }
}
