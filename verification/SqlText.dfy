/** Trimming, and splitting at a separator the way `strtok` does. */
module SqlText {

  predicate IsSpace(c: char) {
    c == ' ' || c == '\t' || c == '\n' || c == 0xb as char || c == 0xc as char || c == '\r'
  }

  predicate Free(s: string, c: char) {
    forall i :: 0 <= i < |s| ==> s[i] != c
  }

  function TrimLeft(s: string): string {
    if s != "" && IsSpace(s[0]) then TrimLeft(s[1..]) else s
  }

  function TrimRight(s: string): string {
    if s != "" && IsSpace(s[|s| - 1]) then TrimRight(s[..|s| - 1]) else s
  }

  function Trim(s: string): string { TrimRight(TrimLeft(s)) }

  /** How far the token at the front of `s` reaches. */
  function TokenEnd(s: string, sep: char): (n: nat)
    ensures n <= |s| && Free(s[..n], sep) && (n < |s| ==> s[n] == sep)
  {
    if s == "" || s[0] == sep then 0
    else
      assert s[1..][..TokenEnd(s[1..], sep)] == s[1..1 + TokenEnd(s[1..], sep)];
      1 + TokenEnd(s[1..], sep)
  }

  /** The tokens of `s`: what is between separators, and not empty. */
  function Tokens(s: string, sep: char): seq<string>
    decreases |s|
  {
    if s == "" then []
    else if s[0] == sep then Tokens(s[1..], sep)
    else
      var n := TokenEnd(s, sep);
      [s[..n]] + Tokens(s[n..], sep)
  }

  /** `listToVector`: the tokens, trimmed. */
  function Pieces(s: string, sep: char): seq<string> {
    TrimAll(Tokens(s, sep))
  }

  function TrimAll(ts: seq<string>): (r: seq<string>)
    ensures |r| == |ts| && forall i :: 0 <= i < |r| ==> r[i] == Trim(ts[i])
  {
    seq(|ts|, i requires 0 <= i < |ts| => Trim(ts[i]))
  }

  // ---------- Laws ----------

  /** There is nothing to trim. */
  predicate Tight(s: string) {
    s != "" && !IsSpace(s[0]) && !IsSpace(s[|s| - 1])
  }

  lemma TrimTight(s: string)
    requires Tight(s)
    ensures Trim(s) == s && Trim(" " + s) == s && Trim(s + " ") == s
  {
    assert (" " + s)[1..] == s;
    assert (s + " ")[..|s + " "| - 1] == s;
    assert IsSpace((s + " ")[|s|]);
    assert TrimLeft(s + " ") == s + " ";
  }

  /** A trimmed string is a part of the string, and empty or tight. */
  lemma TrimmedIsTight(s: string)
    ensures Trim(s) == "" || Tight(Trim(s))
    ensures forall c :: Free(s, c) ==> Free(Trim(s), c)
  {
    TrimLeftPart(s);
    TrimRightPart(TrimLeft(s));
  }

  lemma {:induction false} TrimLeftPart(s: string)
    ensures TrimLeft(s) == "" || !IsSpace(TrimLeft(s)[0])
    ensures forall c :: Free(s, c) ==> Free(TrimLeft(s), c)
    decreases |s|
  {
    if s != "" && IsSpace(s[0]) {
      TrimLeftPart(s[1..]);
    }
  }

  lemma {:induction false} TrimRightPart(s: string)
    ensures TrimRight(s) == "" || !IsSpace(TrimRight(s)[|TrimRight(s)| - 1])
    ensures TrimRight(s) <= s
    ensures forall c :: Free(s, c) ==> Free(TrimRight(s), c)
    decreases |s|
  {
    if s != "" && IsSpace(s[|s| - 1]) {
      TrimRightPart(s[..|s| - 1]);
    }
  }

  /** A text of nothing but blanks, tabs, line ends, vertical tabs and form feeds. */
  predicate Blank(s: string) {
    forall i :: 0 <= i < |s| ==> s[i] in {' ', '\t', '\n', '\r', '\U{b}', '\U{c}'}
  }

  /** Trimming takes away blank text on both sides, and stops at anything else. */
  lemma TrimsBlanks(pre: string, s: string, suf: string)
    requires Blank(pre) && Blank(suf)
    requires s == "" || (!Blank(s[..1]) && !Blank(s[|s| - 1..]))
    ensures Trim(pre + s + suf) == s
  {
    TrimsLeft(pre, s + suf);
    assert pre + s + suf == pre + (s + suf);
    if s == "" {
      assert s + suf == suf && suf + "" == suf;
      TrimsLeft(suf, "");
    } else {
      assert s[..1] == [s[0]] && s[|s| - 1..] == [s[|s| - 1]];
      TrimsRight(s, suf);
    }
  }

  lemma {:induction false} TrimsLeft(pre: string, s: string)
    requires Blank(pre)
    ensures TrimLeft(pre + s) == TrimLeft(s)
    decreases |pre|
  {
    if pre == "" {
      assert pre + s == s;
    } else {
      assert (pre + s)[1..] == pre[1..] + s;
      TrimsLeft(pre[1..], s);
    }
  }

  lemma {:induction false} TrimsRight(s: string, suf: string)
    requires Blank(suf)
    ensures TrimRight(s + suf) == TrimRight(s)
    decreases |suf|
  {
    if suf == "" {
      assert s + suf == s;
    } else {
      assert (s + suf)[..|s + suf| - 1] == s + suf[..|suf| - 1];
      TrimsRight(s, suf[..|suf| - 1]);
    }
  }

  lemma {:induction false} TokenEndAt(w: string, rest: string, sep: char)
    requires Free(w, sep) && (rest == "" || rest[0] == sep)
    ensures TokenEnd(w + rest, sep) == |w|
  {
    if w == "" {
      assert w + rest == rest;
    } else {
      assert (w + rest)[1..] == w[1..] + rest;
      TokenEndAt(w[1..], rest, sep);
    }
  }

  /** A word in front of a separator, or of nothing, is the first token. */
  lemma FirstToken(w: string, rest: string, sep: char)
    requires w != "" && Free(w, sep) && (rest == "" || rest[0] == sep)
    ensures Tokens(w + rest, sep) == [w] + Tokens(rest, sep)
  {
    var s := w + rest;
    assert s[0] == w[0];
    TokenEndAt(w, rest, sep);
    assert s[..|w|] == w && s[|w|..] == rest;
  }

  /** Separators in front are skipped. */
  lemma SkipSeparator(rest: string, sep: char)
    ensures Tokens([sep] + rest, sep) == Tokens(rest, sep)
  {
    assert ([sep] + rest)[1..] == rest;
  }

  lemma NoTokens(s: string, sep: char)
    requires s == ""
    ensures Tokens(s, sep) == []
  {
  }

  lemma {:induction false} TokensAreFree(s: string, sep: char)
    ensures forall i :: 0 <= i < |Tokens(s, sep)| ==> Free(Tokens(s, sep)[i], sep)
    decreases |s|
  {
    if s != "" {
      if s[0] == sep {
        TokensAreFree(s[1..], sep);
      } else {
        TokensAreFree(s[TokenEnd(s, sep)..], sep);
      }
    }
  }

  // ---------- The loops of the source ----------

  method TrimLeftOf(s: string) returns (r: string)
    ensures r == TrimLeft(s)
  {
    var it := 0;
    assert s[0..] == s;
    while it < |s| && IsSpace(s[it])
      invariant 0 <= it <= |s| && TrimLeft(s[it..]) == TrimLeft(s)
    {
      assert s[it..][1..] == s[it + 1..];
      it := it + 1;
    }
    r := s[it..];
  }

  method TrimRightOf(s: string) returns (r: string)
    ensures r == TrimRight(s)
  {
    var it := |s|;
    assert s[..|s|] == s;
    while it > 0 && IsSpace(s[it - 1])
      invariant 0 <= it <= |s| && TrimRight(s[..it]) == TrimRight(s)
    {
      assert s[..it][..it - 1] == s[..it - 1];
      it := it - 1;
    }
    r := s[..it];
  }

  method TrimOf(s: string) returns (r: string)
    ensures r == Trim(s)
  {
    r := TrimLeftOf(s);
    r := TrimRightOf(r);
  }

  /** `strtok`: the next token at or after `at`, and where it ends. */
  method NextToken(s: string, sep: char, at: nat) returns (token: string, end: nat)
    requires at <= |s|
    ensures end <= |s|
    ensures token == "" ==> Tokens(s[at..], sep) == []
    ensures token != "" ==> end > at && Tokens(s[at..], sep) == [token] + Tokens(s[end..], sep)
  {
    hide Tokens;
    var begin := at;
    while begin < |s| && s[begin] == sep
      invariant at <= begin <= |s| && Tokens(s[begin..], sep) == Tokens(s[at..], sep)
    {
      assert s[begin..] == [sep] + s[begin + 1..];
      SkipSeparator(s[begin + 1..], sep);
      begin := begin + 1;
    }
    end := begin;
    while end < |s| && s[end] != sep
      invariant begin <= end <= |s| && forall i :: begin <= i < end ==> s[i] != sep
    {
      end := end + 1;
    }
    token := s[begin..end];
    if token != "" {
      assert s[begin..] == token + s[end..];
      FirstToken(token, s[end..], sep);
    } else {
      NoTokens(s[begin..], sep);
    }
  }

  method ListToVector(s: string, sep: char) returns (v: seq<string>)
    ensures v == Pieces(s, sep)
  {
    hide Tokens, TrimAll;
    v := [];
    ghost var seen: seq<string> := [];
    assert s[0..] == s;
    var token, end := NextToken(s, sep, 0);
    ghost var at := 0;
    while token != ""
      invariant at <= |s| && end <= |s|
      invariant token == "" ==> Tokens(s[at..], sep) == []
      invariant token != "" ==> end > at && Tokens(s[at..], sep) == [token] + Tokens(s[end..], sep)
      invariant v == TrimAll(seen) && seen + Tokens(s[at..], sep) == Tokens(s, sep)
      decreases |s| - at
    {
      var piece := TrimOf(token);
      v := v + [piece];
      seen := seen + [token];
      at := end;
      token, end := NextToken(s, sep, end);
    }
    assert seen == Tokens(s, sep);
  }
}
