/** The tokenizer of src/buffer.c on the unread bytes: what one call takes, and what repeated
    calls make of a whole text. */
module Tokens {
  import opened Str

  /** The end of the run of delimiters from i on. */
  function SkipDelims(u: seq<byte>, i: nat, delim: seq<byte>): (j: nat)
    requires i <= |u|
    ensures i <= j <= |u|
    decreases |u| - i
  {
    if i < |u| && u[i] in delim then SkipDelims(u, i + 1, delim) else i
  }

  /** The end of the run of other bytes from i on. */
  function SkipToken(u: seq<byte>, i: nat, delim: seq<byte>): (j: nat)
    requires i <= |u|
    ensures i <= j <= |u|
    decreases |u| - i
  {
    if i < |u| && u[i] !in delim then SkipToken(u, i + 1, delim) else i
  }

  /** A token found at [start, end); reading goes on at after. */
  datatype Cut = Cut(start: nat, end: nat, after: nat)

  /** One call: skip delimiters, take the token, and skip the delimiters behind it unless they
      are to be preserved. */
  function Next(u: seq<byte>, delim: seq<byte>, preserveEnd: bool): (c: Cut)
    ensures c.start <= c.end <= c.after <= |u|
  {
    var start := SkipDelims(u, 0, delim);
    var end := SkipToken(u, start, delim);
    Cut(start, end, if preserveEnd then end else SkipDelims(u, end, delim))
  }

  /** All tokens of a text, by repeated calls until one is empty. */
  function All(u: seq<byte>, delim: seq<byte>): seq<seq<byte>>
    decreases |u|
  {
    var c := Next(u, delim, false);
    if c.start == c.end then [] else [u[c.start..c.end]] + All(u[c.after..], delim)
  }

  /** All tokens, each call choosing anew whether to preserve the delimiters behind its token. */
  function AllChoosing(u: seq<byte>, delim: seq<byte>, preserve: nat -> bool, n: nat): seq<seq<byte>>
    decreases |u|
  {
    var c := Next(u, delim, preserve(n));
    if c.start == c.end then [] else [u[c.start..c.end]] + AllChoosing(u[c.after..], delim, preserve, n + 1)
  }

  // ----- Texts of tokens and gaps

  predicate OnlyDelims(s: seq<byte>, delim: seq<byte>) {
    forall i | 0 <= i < |s| :: s[i] in delim
  }

  predicate IsToken(s: seq<byte>, delim: seq<byte>) {
    s != [] && forall i | 0 <= i < |s| :: s[i] !in delim
  }

  /** A text of tokens, each but the first set off by delimiters: gaps[0] first, then each token
      and the gap behind it. Only the first and the last gap may be empty. */
  predicate Separated(tokens: seq<seq<byte>>, gaps: seq<seq<byte>>, delim: seq<byte>) {
    && |gaps| == |tokens| + 1
    && (forall i | 0 <= i < |tokens| :: IsToken(tokens[i], delim))
    && (forall i | 0 <= i < |gaps| :: OnlyDelims(gaps[i], delim))
    && (forall i | 0 < i < |tokens| :: gaps[i] != [])
  }

  function Text(tokens: seq<seq<byte>>, gaps: seq<seq<byte>>): seq<byte>
    requires |gaps| == |tokens| + 1
  {
    if tokens == [] then gaps[0] else gaps[0] + (tokens[0] + Text(tokens[1..], gaps[1..]))
  }

  /** What one call finds, by the bytes of the text. */
  predicate IsCut(u: seq<byte>, c: Cut, delim: seq<byte>, preserveEnd: bool) {
    && c.start <= c.end <= c.after <= |u|
    && (forall i | 0 <= i < c.start :: u[i] in delim)
    && (forall i | c.start <= i < c.end :: u[i] !in delim)
    && (forall i | c.end <= i < c.after :: u[i] in delim)
    && (c.start < |u| ==> c.start < c.end)
    && (c.end < |u| ==> u[c.end] in delim)
    && (if preserveEnd then c.after == c.end else c.after < |u| ==> u[c.after] !in delim)
  }

  /** Slices of a slice. */
  lemma Window(s: seq<byte>, lo: nat, hi: nat, i: nat, j: nat)
    requires lo <= i <= j <= hi <= |s|
    ensures s[lo..hi][..i - lo] == s[lo..i]
    ensures s[lo..hi][i - lo..j - lo] == s[i..j]
    ensures s[lo..hi][j - lo..] == s[j..hi]
  {
    var window := s[lo..hi];
    forall k | 0 <= k < j - i
      ensures window[i - lo..j - lo][k] == s[i..j][k]
    {
      assert window[i - lo + k] == s[i + k];
    }
    forall k | 0 <= k < hi - j
      ensures window[j - lo..][k] == s[j..hi][k]
    {
      assert window[j - lo + k] == s[j + k];
    }
  }

  lemma {:induction false} DelimRun(u: seq<byte>, i: nat, delim: seq<byte>)
    requires i <= |u|
    ensures var j := SkipDelims(u, i, delim);
            (forall k | i <= k < j :: u[k] in delim) && (j < |u| ==> u[j] !in delim)
    decreases |u| - i
  {
    if i == |u| || u[i] !in delim {
    } else {
      DelimRun(u, i + 1, delim);
    }
  }

  lemma {:induction false} TokenRun(u: seq<byte>, i: nat, delim: seq<byte>)
    requires i <= |u|
    ensures var j := SkipToken(u, i, delim);
            (forall k | i <= k < j :: u[k] !in delim) && (j < |u| ==> u[j] in delim)
    decreases |u| - i
  {
    if i == |u| || u[i] in delim {
    } else {
      TokenRun(u, i + 1, delim);
    }
  }

  lemma SkipUnique(u: seq<byte>, i: nat, j: nat, delim: seq<byte>)
    requires i <= j <= |u|
    ensures (forall k | i <= k < j :: u[k] in delim) && (j < |u| ==> u[j] !in delim) ==> SkipDelims(u, i, delim) == j
    ensures (forall k | i <= k < j :: u[k] !in delim) && (j < |u| ==> u[j] in delim) ==> SkipToken(u, i, delim) == j
  {
    DelimRun(u, i, delim);
    TokenRun(u, i, delim);
    var d, t := SkipDelims(u, i, delim), SkipToken(u, i, delim);
    assert d < j ==> u[d] !in delim;
    assert t < j ==> u[t] in delim;
  }

  /** Skipping in the rest of a text is skipping further on in the text. */
  lemma SkipInRest(u: seq<byte>, k: nat, i: nat, delim: seq<byte>)
    requires k + i <= |u|
    ensures SkipDelims(u, k + i, delim) == k + SkipDelims(u[k..], i, delim)
    ensures SkipToken(u, k + i, delim) == k + SkipToken(u[k..], i, delim)
  {
    DelimRun(u[k..], i, delim);
    TokenRun(u[k..], i, delim);
    var d, t := SkipDelims(u[k..], i, delim), SkipToken(u[k..], i, delim);
    assert forall j | k + i <= j < |u| :: u[j] == u[k..][j - k];
    SkipUnique(u, k + i, k + d, delim);
    SkipUnique(u, k + i, k + t, delim);
  }

  /** The cut of a call, from its three runs, each counted from where the first one ends. */
  lemma NextByRuns(u: seq<byte>, delim: seq<byte>, preserveEnd: bool, start: nat, len: nat, gap: nat)
    requires start == SkipDelims(u, 0, delim) && len == SkipToken(u[start..], 0, delim)
    requires gap == if preserveEnd then len else SkipDelims(u[start..], len, delim)
    ensures Next(u, delim, preserveEnd) == Cut(start, start + len, start + gap)
  {
    SkipInRest(u, start, 0, delim);
    SkipInRest(u, start, len, delim);
  }

  lemma RestSlices(u: seq<byte>, k: nat, v: seq<byte>, i: nat, j: nat)
    requires k <= |u| && v == u[k..] && i <= j <= |v|
    ensures v[i..j] == u[k + i..k + j] && v[j..] == u[k + j..]
  {
    assert v == u[k..|u|] && v[j..] == v[j..|v|] && u[k + j..] == u[k + j..|u|];
    Window(u, k, |u|, k + i, k + j);
  }

  /** The tokens of u from position i on, without cutting the text up. */
  function From(u: seq<byte>, i: nat, delim: seq<byte>): seq<seq<byte>>
    requires i <= |u|
    decreases |u| - i
  {
    var start := SkipDelims(u, i, delim);
    var end := SkipToken(u, start, delim);
    if start == end then [] else [u[start..end]] + From(u, end, delim)
  }

  /** Leading delimiters make no difference to the tokens that follow. */
  lemma {:induction false} FromSkips(u: seq<byte>, i: nat, j: nat, delim: seq<byte>)
    requires i <= |u| && i <= j <= SkipDelims(u, i, delim)
    ensures From(u, i, delim) == From(u, j, delim)
  {
    DelimRun(u, i, delim);
    SkipUnique(u, j, SkipDelims(u, i, delim), delim);
  }

  /** Where a call on the text from position i on finds its token, and where the next call may
      begin. */
  lemma CutAt(u: seq<byte>, i: nat, delim: seq<byte>, preserveEnd: bool, c: Cut)
    requires i <= |u| && c == Next(u[i..], delim, preserveEnd)
    ensures i + c.start == SkipDelims(u, i, delim) && i + c.end == SkipToken(u, i + c.start, delim)
    ensures c.end <= c.after && i + c.after <= SkipDelims(u, i + c.end, delim)
  {
    SkipInRest(u, i, 0, delim);
    SkipInRest(u, i, c.start, delim);
    SkipInRest(u, i, c.end, delim);
  }

  lemma {:induction false} FromFirst(u: seq<byte>, i: nat, delim: seq<byte>, start: nat, end: nat, next: nat)
    requires i <= start <= end <= |u| && start == SkipDelims(u, i, delim) && end == SkipToken(u, start, delim)
    requires end <= next <= SkipDelims(u, end, delim)
    ensures From(u, i, delim) == if start == end then [] else [u[start..end]] + From(u, next, delim)
  {
    FromSkips(u, end, next, delim);
  }

  lemma {:induction false} ChoosingFirst(v: seq<byte>, delim: seq<byte>, preserve: nat -> bool, n: nat,
                                         token: seq<byte>, rest: seq<byte>)
    requires var c := Next(v, delim, preserve(n)); token == v[c.start..c.end] && rest == v[c.after..]
    ensures AllChoosing(v, delim, preserve, n) ==
            if token == [] then [] else [token] + AllChoosing(rest, delim, preserve, n + 1)
  {
  }

  lemma CutOut(u: seq<byte>, i: nat, v: seq<byte>, c: Cut) returns (token: seq<byte>, rest: seq<byte>)
    requires i <= |u| && v == u[i..] && c.start <= c.end <= c.after <= |v|
    ensures token == v[c.start..c.end] == u[i + c.start..i + c.end]
    ensures rest == v[c.after..] == u[i + c.after..]
  {
    RestSlices(u, i, v, c.start, c.end);
    RestSlices(u, i, v, c.start, c.after);
    token, rest := v[c.start..c.end], v[c.after..];
  }

  /** The first token of a rest of the text and what is left, by their places in the text. */
  lemma FirstAt(u: seq<byte>, i: nat, v: seq<byte>, delim: seq<byte>, preserveEnd: bool)
    returns (start: nat, end: nat, next: nat, token: seq<byte>, rest: seq<byte>)
    requires i <= |u| && v == u[i..]
    ensures var c := Next(v, delim, preserveEnd); token == v[c.start..c.end] && rest == v[c.after..]
    ensures i <= start <= end <= |u| && start == SkipDelims(u, i, delim) && end == SkipToken(u, start, delim)
    ensures end <= next <= SkipDelims(u, end, delim)
    ensures token == u[start..end] && rest == u[next..]
  {
    var c := Next(v, delim, preserveEnd);
    CutAt(u, i, delim, preserveEnd, c);
    start, end, next := i + c.start, i + c.end, i + c.after;
    token, rest := CutOut(u, i, v, c);
  }

  lemma {:induction false} ChoosingIsFrom(u: seq<byte>, i: nat, v: seq<byte>, delim: seq<byte>,
                                          preserve: nat -> bool, n: nat)
    requires i <= |u| && v == u[i..]
    ensures AllChoosing(v, delim, preserve, n) == From(u, i, delim)
    decreases |u| - i
  {
    var start, end, next, token, rest := FirstAt(u, i, v, delim, preserve(n));
    FromFirst(u, i, delim, start, end, next);
    ChoosingFirst(v, delim, preserve, n, token, rest);
    if start == end {
    } else {
      ChoosingIsFrom(u, next, rest, delim, preserve, n + 1);
    }
  }

  lemma {:induction false} AllIsChoosing(u: seq<byte>, delim: seq<byte>, n: nat)
    ensures All(u, delim) == AllChoosing(u, delim, _ => false, n)
    decreases |u|
  {
    var c := Next(u, delim, false);
    if c.start == c.end {
    } else {
      AllIsChoosing(u[c.after..], delim, n + 1);
    }
  }

  /** Preserving the delimiters behind tokens or not, call by call, gives the same tokens. */
  lemma PreservingKeepsTokens(u: seq<byte>, delim: seq<byte>, preserve: nat -> bool, n: nat)
    ensures AllChoosing(u, delim, preserve, n) == All(u, delim)
  {
    assert u[0..] == u;
    ChoosingIsFrom(u, 0, u, delim, preserve, n);
    ChoosingIsFrom(u, 0, u, delim, _ => false, n);
    AllIsChoosing(u, delim, n);
  }

  lemma CutRuns(u: seq<byte>, delim: seq<byte>, preserveEnd: bool)
    ensures IsCut(u, Next(u, delim, preserveEnd), delim, preserveEnd)
  {
    var c := Next(u, delim, preserveEnd);
    DelimRun(u, 0, delim);
    TokenRun(u, c.start, delim);
    DelimRun(u, c.end, delim);
  }

  /** A call finds a cut, and it is the only one. */
  lemma NextIsTheCut(u: seq<byte>, delim: seq<byte>, preserveEnd: bool, c: Cut)
    ensures IsCut(u, Next(u, delim, preserveEnd), delim, preserveEnd)
    ensures IsCut(u, c, delim, preserveEnd) ==> Next(u, delim, preserveEnd) == c
  {
    CutRuns(u, delim, preserveEnd);
    if IsCut(u, c, delim, preserveEnd) {
      SkipUnique(u, 0, c.start, delim);
      SkipUnique(u, c.start, c.end, delim);
      SkipUnique(u, c.end, c.after, delim);
    }
  }

  lemma CutOf(g: seq<byte>, t: seq<byte>, gap: seq<byte>, behind: seq<byte>, delim: seq<byte>)
    requires OnlyDelims(g, delim) && IsToken(t, delim) && OnlyDelims(gap, delim)
    requires behind != [] ==> behind[0] !in delim && gap != []
    ensures var u, c := g + (t + (gap + behind)), Cut(|g|, |g| + |t|, |g| + |t| + |gap|);
            Next(u, delim, false) == c && u[c.start..c.end] == t && u[c.after..] == behind
  {
    var u, c := g + (t + (gap + behind)), Cut(|g|, |g| + |t|, |g| + |t| + |gap|);
    NextIsTheCut(u, delim, false, c);
  }

  lemma TextStarts(tokens: seq<seq<byte>>, gaps: seq<seq<byte>>, delim: seq<byte>)
    requires Separated(tokens, gaps, delim)
    ensures var behind := Text(tokens, [[]] + gaps[1..]);
            && Text(tokens, gaps) == gaps[0] + behind
            && (behind == [] <==> tokens == []) && (behind != [] ==> behind[0] !in delim)
  {
    assert ([[]] + gaps[1..])[1..] == gaps[1..];
    if tokens != [] {
      assert IsToken(tokens[0], delim);
    }
  }

  lemma WithoutFirst(tokens: seq<seq<byte>>, gaps: seq<seq<byte>>, delim: seq<byte>)
    requires Separated(tokens, gaps, delim) && tokens != []
    ensures Separated(tokens[1..], gaps[1..], delim) && Separated(tokens[1..], [[]] + gaps[2..], delim)
  {
    assert forall i | 0 <= i < |tokens| - 1 :: tokens[1..][i] == tokens[i + 1];
    assert forall i | 0 <= i < |gaps| - 1 :: gaps[1..][i] == gaps[i + 1];
    assert forall i | 1 <= i < |gaps| - 1 :: ([[]] + gaps[2..])[i] == gaps[i + 1];
  }

  /** The first call on such a text takes its first token and both gaps around it. */
  lemma FirstToken(tokens: seq<seq<byte>>, gaps: seq<seq<byte>>, delim: seq<byte>) returns (c: Cut)
    requires Separated(tokens, gaps, delim) && tokens != []
    ensures var u := Text(tokens, gaps);
            && c == Next(u, delim, false) && u[c.start..c.end] == tokens[0]
            && u[c.after..] == Text(tokens[1..], [[]] + gaps[2..])
  {
    WithoutFirst(tokens, gaps, delim);
    TextStarts(tokens[1..], gaps[1..], delim);
    assert gaps[1..][1..] == gaps[2..];
    CutOf(gaps[0], tokens[0], gaps[1], Text(tokens[1..], [[]] + gaps[2..]), delim);
    c := Next(Text(tokens, gaps), delim, false);
  }

  /** Tokenizing a text of tokens and gaps gives the tokens. */
  lemma {:induction false} AllTokens(tokens: seq<seq<byte>>, gaps: seq<seq<byte>>, delim: seq<byte>)
    requires Separated(tokens, gaps, delim)
    ensures All(Text(tokens, gaps), delim) == tokens
    decreases |tokens|
  {
    if tokens == [] {
      var u := gaps[0];
      NextIsTheCut(u, delim, false, Cut(|u|, |u|, |u|));
    } else {
      var c := FirstToken(tokens, gaps, delim);
      WithoutFirst(tokens, gaps, delim);
      AllTokens(tokens[1..], [[]] + gaps[2..], delim);
      assert IsToken(tokens[0], delim);
    }
  }

  lemma PrependToken(lead: seq<byte>, token: seq<byte>, trail: seq<byte>,
                     tokens: seq<seq<byte>>, gaps: seq<seq<byte>>, delim: seq<byte>)
    requires Separated(tokens, gaps, delim) && gaps[0] == []
    requires OnlyDelims(lead, delim) && IsToken(token, delim) && OnlyDelims(trail, delim)
    requires tokens != [] ==> trail != []
    ensures var all := [lead, trail] + gaps[1..];
            && Separated([token] + tokens, all, delim)
            && Text([token] + tokens, all) == lead + (token + (trail + Text(tokens, gaps)))
  {
    var all := [lead, trail] + gaps[1..];
    var behind := [trail] + gaps[1..];
    assert all[1..] == behind && ([token] + tokens)[1..] == tokens;
    assert behind[1..] == gaps[1..];
    assert Text(tokens, behind) == trail + Text(tokens, gaps);
    assert forall i | 2 <= i < |all| :: all[i] == gaps[i - 1];
  }

  lemma InFour(u: seq<byte>, i: nat, j: nat, k: nat)
    requires i <= j <= k <= |u|
    ensures u == u[..i] + (u[i..j] + (u[j..k] + u[k..]))
  {
  }

  lemma CutSplits(u: seq<byte>, c: Cut, delim: seq<byte>)
    requires IsCut(u, c, delim, false)
    ensures u == u[..c.start] + (u[c.start..c.end] + (u[c.end..c.after] + u[c.after..]))
    ensures OnlyDelims(u[..c.start], delim) && OnlyDelims(u[c.end..c.after], delim)
    ensures if c.start == c.end then OnlyDelims(u, delim) else IsToken(u[c.start..c.end], delim)
    ensures u[c.after..] != [] ==> u[c.end..c.after] != [] && u[c.after..][0] !in delim
  {
    InFour(u, c.start, c.end, c.after);
  }

  /** A text that does not begin with a delimiter begins with no gap. */
  lemma FirstGapEmpty(tokens: seq<seq<byte>>, gaps: seq<seq<byte>>, delim: seq<byte>)
    requires Separated(tokens, gaps, delim)
    requires var t := Text(tokens, gaps); t != [] ==> t[0] !in delim
    ensures gaps[0] == [] && (tokens != [] ==> Text(tokens, gaps) != [])
  {
    TextStarts(tokens, gaps, delim);
  }

  /** Every text is the text of its own tokens with some gaps: no byte but delimiters is lost. */
  lemma {:induction false} EveryTextSplits(u: seq<byte>, delim: seq<byte>) returns (gaps: seq<seq<byte>>)
    ensures Separated(All(u, delim), gaps, delim) && Text(All(u, delim), gaps) == u
    decreases |u|
  {
    var c := Next(u, delim, false);
    NextIsTheCut(u, delim, false, c);
    CutSplits(u, c, delim);
    if c.start == c.end {
      gaps := [u];
    } else {
      var rest := u[c.after..];
      var inner := EveryTextSplits(rest, delim);
      FirstGapEmpty(All(rest, delim), inner, delim);
      PrependToken(u[..c.start], u[c.start..c.end], u[c.end..c.after], All(rest, delim), inner, delim);
      gaps := [u[..c.start], u[c.end..c.after]] + inner[1..];
    }
  }
}
