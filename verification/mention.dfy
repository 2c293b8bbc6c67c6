/** Removal of Slack user-mention tokens from message text: the substitution
    `re.sub(r"<@[^>]+>\s*", "", text)` followed by `.strip()`, written out as an
    explicit left-to-right scanner. */
module Mention {
  import opened Wrappers
  import opened Strings

  predicate NoClose(x: string) {
    forall k :: 0 <= k < |x| ==> x[k] != '>'
  }

  /** The whole of `t` matches `<@[^>]+>\s*`, its closing `>` being `t[j]`. */
  predicate MatchesClosingAt(t: string, j: int) {
    && 3 <= j < |t|
    && t[0] == '<' && t[1] == '@' && t[j] == '>'
    && NoClose(t[2..j])
    && AllSpace(t[j + 1..])
  }

  /** The whole of `t` matches the mention pattern. */
  predicate Matches(t: string) {
    exists j | 3 <= j < |t| :: MatchesClosingAt(t, j)
  }

  /** Index of the first `>` of `s` at or after `from`. */
  function FindClose(s: string, from: nat): (j: Option<nat>)
    decreases |s| - from
    ensures j.Some? ==> from <= j.value < |s| && s[j.value] == '>'
    ensures j.Some? ==> forall k :: from <= k < j.value ==> s[k] != '>'
    ensures j.None? ==> forall k :: from <= k < |s| ==> s[k] != '>'
  {
    if from >= |s| then None
    else if s[from] == '>' then Some(from)
    else FindClose(s, from + 1)
  }

  /** End of the run of whitespace that starts at `from`. */
  function SpanSpace(s: string, from: nat): (e: nat)
    requires from <= |s|
    decreases |s| - from
    ensures from <= e <= |s|
    ensures forall k :: from <= k < e ==> IsSpace(s[k])
    ensures e < |s| ==> !IsSpace(s[e])
  {
    if from < |s| && IsSpace(s[from]) then SpanSpace(s, from + 1) else from
  }

  /** Length of the match of the mention pattern anchored at the start of `s`,
      as Python's `re` finds it. The pattern's quantifiers are greedy, so the
      match found is the longest prefix of `s` that matches. */
  function MatchAt(s: string): (m: Option<nat>)
    ensures m.Some? ==> 4 <= m.value <= |s| && Matches(s[..m.value])
    ensures m.Some? ==> forall n :: m.value < n <= |s| ==> !Matches(s[..n])
    ensures m.None? ==> forall n :: 0 <= n <= |s| ==> !Matches(s[..n])
  {
    if |s| < 2 || s[0] != '<' || s[1] != '@' then
      NoMatchWithoutOpener(s);
      None
    else
      match FindClose(s, 2)
      case None =>
        NoMatchWithoutClose(s, |s|);
        None
      case Some(j) =>
        if j == 2 then
          NoMatchWithoutClose(s, 2);
          None
        else
          var e := SpanSpace(s, j + 1);
          MatchIsLongest(s, j, e);
          Some(e)
  }

  lemma NoMatchWithoutOpener(s: string)
    requires |s| < 2 || s[0] != '<' || s[1] != '@'
    ensures forall n :: 0 <= n <= |s| ==> !Matches(s[..n])
  {
    forall n, j | 0 <= n <= |s| ensures !MatchesClosingAt(s[..n], j) {
      if 2 <= n {
        assert s[..n][0] == s[0] && s[..n][1] == s[1];
      }
    }
  }

  /** `s` opens with `<@`, and no `>` closes it: either there is no `>` after
      the opener at all (`c == |s|`), or the first one comes straight after it
      (`c == 2`), leaving the `[^>]+` part empty. */
  lemma NoMatchWithoutClose(s: string, c: nat)
    requires 2 <= c <= |s|
    requires forall k :: 2 <= k < c ==> s[k] != '>'
    requires c == |s| || (c == 2 && s[2] == '>')
    ensures forall n :: 0 <= n <= |s| ==> !Matches(s[..n])
  {
    forall n, j | 0 <= n <= |s| ensures !MatchesClosingAt(s[..n], j) {
      if 3 <= j < n {
        var t := s[..n];
        assert t[j] == s[j];
        assert t[2..j][0] == s[2];
      }
    }
  }

  lemma MatchIsLongest(s: string, j: nat, e: nat)
    requires 2 <= |s| && s[0] == '<' && s[1] == '@'
    requires 3 <= j < |s| && s[j] == '>'
    requires forall k :: 2 <= k < j ==> s[k] != '>'
    requires j + 1 <= e <= |s|
    requires forall k :: j + 1 <= k < e ==> IsSpace(s[k])
    requires e < |s| ==> !IsSpace(s[e])
    ensures 4 <= e && Matches(s[..e])
    ensures forall n :: e < n <= |s| ==> !Matches(s[..n])
  {
    var t := s[..e];
    assert t[2..j] == s[2..j];
    assert t[j + 1..] == s[j + 1..e];
    assert MatchesClosingAt(t, j);
    forall n, j' | e < n <= |s| ensures !MatchesClosingAt(s[..n], j') {
      if 3 <= j' < n {
        var u := s[..n];
        assert u[j'] == s[j'];
        if j < j' {
          assert u[2..j'][j - 2] == s[j];
        }
        if j' == j {
          assert u[j + 1..][e - j - 1] == s[e];
        }
      }
    }
  }

  /** One left-to-right pass of `re.sub` with the mention pattern and an empty
      replacement: at each position either the pattern matches and the match
      is dropped, or one character is kept and the scan moves on. */
  function StripMentions(s: string): (r: string)
    ensures |r| <= |s|
    decreases |s|
  {
    if s == [] then []
    else
      match MatchAt(s)
      case Some(n) => StripMentions(s[n..])
      case None => [s[0]] + StripMentions(s[1..])
  }

  /** `FindClose` stops at the first `>` at or after `from`. */
  lemma {:induction false} FindCloseAt(s: string, from: nat, j: nat)
    requires from <= j < |s| && s[j] == '>'
    requires forall k :: from <= k < j ==> s[k] != '>'
    ensures FindClose(s, from) == Some(j)
    decreases j - from
  {
    if from < j {
      FindCloseAt(s, from + 1, j);
    }
  }

  /** `SpanSpace` stops at the first non-whitespace character at or after
      `from`. */
  lemma {:induction false} SpanSpaceTo(s: string, from: nat, e: nat)
    requires from <= e <= |s|
    requires forall k :: from <= k < e ==> IsSpace(s[k])
    requires e < |s| ==> !IsSpace(s[e])
    ensures SpanSpace(s, from) == e
    decreases e - from
  {
    if from < e {
      SpanSpaceTo(s, from + 1, e);
    }
  }

  /** The mention token `<@name>` followed by the whitespace `ws`. */
  function Token(name: string, ws: string): (t: string)
    requires name != [] && NoClose(name) && AllSpace(ws)
    ensures Matches(t)
  {
    var t := ['<', '@'] + name + ['>'] + ws;
    assert t[2..|name| + 2] == name;
    assert t[|name| + 3..] == ws;
    assert MatchesClosingAt(t, |name| + 2);
    t
  }

  /** At the start of a text, the match is the whole token with all the
      whitespace after it. */
  lemma LeadingTokenMatched(name: string, ws: string, post: string)
    requires name != [] && NoClose(name)
    requires AllSpace(ws)
    requires post == [] || !IsSpace(post[0])
    ensures MatchAt(Token(name, ws) + post) == Some(|Token(name, ws)|)
  {
    var s := Token(name, ws) + post;
    var j := |name| + 2;
    var e := j + 1 + |ws|;
    assert s[0] == '<' && s[1] == '@' && s[j] == '>';
    forall k | 2 <= k < j ensures s[k] != '>' {
      assert s[k] == name[k - 2];
    }
    FindCloseAt(s, 2, j);
    forall k | j + 1 <= k < e ensures IsSpace(s[k]) {
      assert s[k] == ws[k - j - 1];
    }
    if e < |s| {
      assert s[e] == post[0];
    }
    SpanSpaceTo(s, j + 1, e);
  }

  /** A mention token with the whitespace after it is removed wherever it
      stands after text holding no `<@` (other markup such as `<!here>` or a
      link may precede it), and the scan carries on after it, so every later
      token is removed in the same pass. */
  lemma {:induction false} TokenAnywhereRemoved(pre: string, name: string, ws: string, post: string)
    requires !HasOpener(pre)
    requires name != [] && NoClose(name)
    requires AllSpace(ws)
    requires post == [] || !IsSpace(post[0])
    ensures StripMentions(pre + Token(name, ws) + post) == pre + StripMentions(post)
    decreases |pre|
  {
    var s := pre + Token(name, ws) + post;
    if pre == [] {
      var t := Token(name, ws);
      assert s == t + post;
      LeadingTokenMatched(name, ws, post);
      assert s[|t|..] == post;
    } else {
      var rest := pre[1..] + Token(name, ws) + post;
      assert s == [pre[0]] + rest;
      assert MatchAt(s) == None by {
        if |pre| > 1 {
          assert !(pre[0] == '<' && pre[1] == '@');
        }
      }
      assert !HasOpener(pre[1..]) by {
        forall k | 0 <= k < |pre[1..]| - 1
          ensures !(pre[1..][k] == '<' && pre[1..][k + 1] == '@')
        {
          assert pre[1..][k] == pre[k + 1] && pre[1..][k + 1] == pre[k + 2];
        }
      }
      TokenAnywhereRemoved(pre[1..], name, ws, post);
      assert pre == [pre[0]] + pre[1..];
    }
  }

  /** Two mention tokens in one text are both removed by the single pass. */
  lemma TwoTokensRemoved(pre: string, a: string, wa: string, mid: string, b: string, wb: string, post: string)
    requires !HasOpener(pre) && !HasOpener(mid)
    requires mid == [] || !IsSpace(mid[0])
    requires a != [] && NoClose(a) && b != [] && NoClose(b)
    requires AllSpace(wa) && AllSpace(wb)
    requires post == [] || !IsSpace(post[0])
    ensures StripMentions(pre + Token(a, wa) + (mid + Token(b, wb) + post)) == pre + (mid + StripMentions(post))
  {
    var second := mid + Token(b, wb) + post;
    TokenAnywhereRemoved(mid, b, wb, post);
    assert second[0] == if mid == [] then '<' else mid[0];
    TokenAnywhereRemoved(pre, a, wa, second);
  }

  /** The text the assembler keeps of a message: mentions removed, then
      surrounding whitespace stripped. */
  function CleanText(s: string): (r: string)
    ensures |r| <= |s|
    ensures r == [] || (!IsSpace(r[0]) && !IsSpace(r[|r| - 1]))
  {
    Strip(StripMentions(s))
  }

  /** `s` contains the opener `<@` somewhere. */
  predicate HasOpener(s: string) {
    exists k :: 0 <= k < |s| - 1 && s[k] == '<' && s[k + 1] == '@'
  }

  /** Text that never contains `<@` passes the substitution unchanged. */
  lemma {:induction false} StripMentionsWithoutOpener(s: string)
    requires !HasOpener(s)
    ensures StripMentions(s) == s
    decreases |s|
  {
    if s != [] {
      assert MatchAt(s).None? by {
        if |s| >= 2 {
          assert !(s[0] == '<' && s[1] == '@');
        }
      }
      assert !HasOpener(s[1..]) by {
        forall k | 0 <= k < |s[1..]| - 1
          ensures !(s[1..][k] == '<' && s[1..][k + 1] == '@')
        {
          assert s[1..][k] == s[k + 1] && s[1..][k + 1] == s[k + 2];
        }
      }
      StripMentionsWithoutOpener(s[1..]);
    }
  }

  /** Text with no mention opener is only stripped. */
  lemma CleanTextWithoutOpener(s: string)
    requires !HasOpener(s)
    ensures CleanText(s) == Strip(s)
  {
    StripMentionsWithoutOpener(s);
  }

  /** `r` can be obtained from `s` by deleting characters. */
  predicate IsSubsequence(r: string, s: string)
    decreases |s|
  {
    if r == [] then true
    else if s == [] then false
    else (r[0] == s[0] && IsSubsequence(r[1..], s[1..])) || IsSubsequence(r, s[1..])
  }

  lemma {:induction false} SubsequenceOfSuffix(r: string, s: string, n: nat)
    requires n <= |s| && IsSubsequence(r, s[n..])
    ensures IsSubsequence(r, s)
    decreases n
  {
    if n > 0 {
      assert s[n..] == s[1..][n - 1..];
      SubsequenceOfSuffix(r, s[1..], n - 1);
    }
  }

  /** The substitution only deletes: every character kept is a character of
      the input, in the input's order. */
  lemma {:induction false} StripMentionsDeletesOnly(s: string)
    ensures IsSubsequence(StripMentions(s), s)
    decreases |s|
  {
    if s != [] {
      match MatchAt(s)
      case Some(n) =>
        StripMentionsDeletesOnly(s[n..]);
        SubsequenceOfSuffix(StripMentions(s[n..]), s, n);
      case None =>
        StripMentionsDeletesOnly(s[1..]);
        var r := StripMentions(s);
        assert r[0] == s[0] && r[1..] == StripMentions(s[1..]);
    }
  }

  /** One pass is not a closure: removing `<@A>` from `<<@A>@B>` brings a new
      token `<@B>` together, and it is left in place. */
  lemma OnePassExposesToken()
    ensures StripMentions("<<@A>@B>") == "<@B>"
    ensures StripMentions(StripMentions("<<@A>@B>")) == ""
  {
    var s := "<<@A>@B>";
    assert MatchAt(s).None?;
    assert s[1..] == "<@A>@B>";
    assert FindClose(s[1..], 2) == Some(3);
    assert MatchAt(s[1..]) == Some(4);
    assert s[1..][4..] == "@B>";
    var t := "@B>";
    assert MatchAt(t).None?;
    assert t[1..] == "B>" && MatchAt(t[1..]).None?;
    assert t[1..][1..] == ">" && MatchAt(t[1..][1..]).None?;
    assert t[1..][1..][1..] == [];
    var u := "<@B>";
    assert FindClose(u, 2) == Some(3);
    assert MatchAt(u) == Some(4);
    assert u[4..] == [];
  }

  /** A leading mention and the space after it go; the rest is kept. */
  lemma LeadingMentionRemoved(s: string, rest: string)
    requires s == "<@BOT> tell me a joke" && rest == "tell me a joke"
    ensures CleanText(s) == rest
  {
    assert s[0] == '<' && s[1] == '@' && s[5] == '>' && s[6] == ' ' && s[7] == 't';
    assert FindClose(s, 2) == Some(5);
    assert SpanSpace(s, 6) == 7;
    assert MatchAt(s) == Some(7);
    assert s[7..] == rest;
    assert !HasOpener(rest) by {
      forall k | 0 <= k < |rest| - 1 ensures rest[k] != '<' { }
    }
    StripMentionsWithoutOpener(rest);
    assert rest[0] == 't' && rest[|rest| - 1] == 'e';
    StripKeepsTrimmed(rest);
  }
}
