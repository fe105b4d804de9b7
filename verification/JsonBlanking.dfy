/** Blanking comments in place, in a buffer that holds a C string. */
module JsonBlanking {
  import opened Wrappers
  import opened JsonText
  import opened JsonParse
  import opened JsonComments

  ghost function Text(text: array<char>): (s: string)
    reads text
    ensures |s| == text.Length
  {
    text[..]
  }

  lemma TextAt(text: array<char>, i: nat)
    requires i < text.Length
    ensures Text(text)[i] == text[i]
  {
  }

  /** token stands at i. */
  ghost predicate Stands(text: string, i: nat, n: nat, token: string)
    requires i <= n <= |text|
  {
    token <= text[i..n]
  }

  /** strncmp(text + i, token, strlen(token)) == 0 */
  method StartsWith(text: array<char>, i: nat, token: string, ghost n: nat) returns (yes: bool)
    requires EndsAt(Text(text), n) && i <= n && CString(token)
    ensures yes <==> Stands(Text(text), i, n, token)
  {
    var k := 0;
    while k < |token|
      invariant k <= |token| && i + k <= n && token[..k] == text[i..i + k]
    {
      EndIsUnique(text[..], n, i + k);
      if text[i + k] != token[k] || text[i + k] == NUL {
        Differs(text[i..n], token, k);
        return false;
      }
      k := k + 1;
    }
    assert token[..k] == token;
    yes := true;
  }

  lemma Differs(s: string, token: string, k: nat)
    requires k < |token| && (k < |s| ==> s[k] != token[k] || s[k] == NUL) && k <= |s| && CString(token)
    ensures !(token <= s)
  {
    assert token[k] in token;
  }

  /** strstr(text + i, token), as a place counted from i, or -1. */
  method StrStr(text: array<char>, i: nat, token: string, ghost n: nat) returns (k: int)
    requires EndsAt(text[..], n) && i <= n && CString(token) && token != ""
    ensures k >= 0 ==> FindToken(text[i..n], token) == Some(k)
    ensures k < 0 ==> FindToken(text[i..n], token) == None
  {
    k := 0;
    hide FindToken;
    while true
      invariant 0 <= k && i + k <= n
      invariant SameSearch(text[i..n], token, text[i + k..n], k)
      decreases n - i - k
    {
      var here := StartsWith(text, i + k, token, n);
      if here {
        FoundHere(text[i + k..n], token);
        return;
      }
      EndIsUnique(text[..], n, i + k);
      if text[i + k] == NUL {
        NotInNothing(text[i + k..n], token);
        return -1;
      }
      SearchOn(text[..], i, token, n, k);
      k := k + 1;
    }
  }

  function Shift(r: Option<nat>, k: nat): Option<nat> {
    match r
    case None => None
    case Some(j) => Some(j + k)
  }

  /** The search for token in s has come down to the search in rest, k characters on. */
  ghost predicate SameSearch(s: string, token: string, rest: string, k: nat)
    requires token != ""
  {
    FindToken(s, token) == Shift(FindToken(rest, token), k)
  }

  lemma SearchOn(text: string, i: nat, token: string, n: nat, k: nat)
    requires i + k < n <= |text| && token != "" && !(token <= text[i + k..n])
    requires SameSearch(text[i..n], token, text[i + k..n], k)
    ensures SameSearch(text[i..n], token, text[i + k + 1..n], k + 1)
  {
    assert text[i + k..n][1..] == text[i + k + 1..n];
  }

  lemma FoundHere(s: string, token: string)
    requires token != "" && token <= s
    ensures FindToken(s, token) == Some(0)
  {
  }

  lemma NotInNothing(s: string, token: string)
    requires token != "" && s == ""
    ensures FindToken(s, token) == None
  {
  }

  /** s with the characters in a range blanked. */
  function Filled(s: string, from: nat, to: nat): (r: string)
    requires from <= to <= |s|
    ensures |r| == |s|
  {
    s[..from] + Blanks(to - from) + s[to..]
  }

  lemma FilledTwice(s: string, from: nat, mid: nat, to: nat)
    requires from <= mid <= to <= |s|
    ensures Filled(Filled(s, from, mid), mid, to) == Filled(s, from, to)
  {
    var r := Filled(s, from, mid);
    assert r[..mid] == s[..from] + Blanks(mid - from) && r[to..] == s[to..];
    assert Blanks(mid - from) + Blanks(to - mid) == Blanks(to - from);
    Assoc(s[..from], Blanks(mid - from), Blanks(to - mid));
  }

  method Blank(text: array<char>, from: nat, to: nat)
    requires from <= to <= text.Length
    modifies text
    ensures text[..] == Filled(old(text[..]), from, to)
  {
    for i := from to to
      invariant text[..from] == old(text[..from]) && text[to..] == old(text[to..])
      invariant forall k :: from <= k < i ==> text[k] == ' '
    {
      text[i] := ' ';
    }
    assert text[from..to] == Blanks(to - from);
    assert text[..] == text[..from] + text[from..to] + text[to..];
  }

  // ---------- the loop ----------

  /** The first i characters are done, the others untouched, and what is left to do is the same scan from here. */
  ghost predicate Progress(now: string, was: string, n: nat, i: nat, start: string, end: string, inString: bool,
                           escaped: bool)
    requires start != "" && end != ""
  {
    && EndsAt(was, n) && i <= n && |now| == |was|
    && now[i..] == was[i..]
    && now[..i] + Remove(was[i..n], start, end, inString, escaped) == Remove(was[..n], start, end, false, false)
  }

  lemma StillEnds(now: string, was: string, n: nat, i: nat, start: string, end: string, inString: bool, escaped: bool)
    requires start != "" && end != "" && Progress(now, was, n, i, start, end, inString, escaped)
    ensures now[i..n] == was[i..n] && now[n] == NUL
    ensures i < n ==> now[i] == was[i] && was[i] != NUL
  {
    assert now[i..][..n - i] == was[i..][..n - i];
    assert now[i..][n - i] == was[i..][n - i];
    if i < n {
      assert now[i..][0] == was[i..][0];
      EndIsUnique(was, n, i);
    }
  }

  lemma NowEnds(now: string, was: string, n: nat, i: nat, start: string, end: string, inString: bool, escaped: bool)
    requires start != "" && end != "" && Progress(now, was, n, i, start, end, inString, escaped)
    ensures EndsAt(now, n)
  {
    StillEnds(now, was, n, i, start, end, inString, escaped);
    RemoveOnlyBlanks(was[..n], start, end, false, false);
    forall k | 0 <= k < n ensures now[k] != NUL {
      EndIsUnique(was, n, k);
      if k < i {
        var r := Remove(was[..n], start, end, false, false);
        assert r[k] == now[..i][k];
      } else {
        assert now[i..][k - i] == was[i..][k - i];
      }
    }
  }

  lemma Begins(was: string, n: nat, start: string, end: string)
    requires start != "" && end != "" && EndsAt(was, n)
    ensures Progress(was, was, n, 0, start, end, false, false) && n < |was|
  {
    assert was[0..n] == was[..n] && was[..0] == "";
  }

  lemma KeepsGoing(now: string, was: string, n: nat, i: nat, start: string, end: string, inString: bool, escaped: bool)
    requires start != "" && end != "" && Progress(now, was, n, i, start, end, inString, escaped) && i < n
    requires !CommentAt(was[i..n], start, inString, escaped)
    ensures var c := was[i];
            Progress(now, was, n, i + 1, start, end,
                     if c == '\"' && !escaped then !inString else inString, c == '\\' && !escaped)
  {
    StillEnds(now, was, n, i, start, end, inString, escaped);
    var c, rest := was[i], was[i + 1..n];
    assert was[i..n] == [c] + rest;
    KeepsOne(c, rest, start, end, inString, escaped);
    assert now[i + 1..] == now[i..][1..] && was[i + 1..] == was[i..][1..];
    MoveOne(now, i, Remove(rest, start, end,
                           if c == '\"' && !escaped then !inString else inString, c == '\\' && !escaped));
  }

  /** What the loop body sees is the text as it was, and unless a comment begins here the character is kept. */
  lemma Sees(now: string, was: string, n: nat, i: nat, start: string, end: string, inString: bool, escaped: bool,
             begins: bool)
    requires start != "" && end != "" && Progress(now, was, n, i, start, end, inString, escaped) && i < n
    requires begins <==> Stands(now, i, n, start)
    ensures var c := now[i];
            if c == '\\' && !escaped then Progress(now, was, n, i + 1, start, end, inString, true)
            else if c == '\"' && !escaped then Progress(now, was, n, i + 1, start, end, !inString, false)
            else if !inString && begins then CommentAt(was[i..n], start, false, escaped)
            else Progress(now, was, n, i + 1, start, end, inString, false)
  {
    StillEnds(now, was, n, i, start, end, inString, escaped);
    if !CommentAt(was[i..n], start, inString, escaped) {
      KeepsGoing(now, was, n, i, start, end, inString, escaped);
    }
  }

  lemma MoveOne(now: string, i: nat, rest: string)
    requires i < |now|
    ensures now[..i] + ([now[i]] + rest) == now[..i + 1] + rest
  {
  }

  lemma SkipsComment(now: string, after: string, was: string, n: nat, i: nat, start: string, end: string,
                     escaped: bool, len: nat)
    requires start != "" && end != "" && Progress(now, was, n, i, start, end, false, escaped)
    requires CommentAt(was[i..n], start, false, escaped) && CommentLength(was[i..n], start, end) == Some(len)
    requires i + len <= n && after == Filled(now, i, i + len)
    ensures Progress(after, was, n, i + len, start, end, false, false)
  {
    BlanksComment(was[i..n], start, end, escaped);
    assert was[i..n][len..] == was[i + len..n];
    assert after[i + len..] == now[i + len..] == now[i..][len..];
    assert was[i + len..] == was[i..][len..];
    Assoc(now[..i], Blanks(len), Remove(was[i + len..n], start, end, false, false));
    assert after[..i + len] == now[..i] + Blanks(len);
  }

  lemma StopsAtOpenComment(now: string, after: string, was: string, n: nat, i: nat, start: string, end: string,
                           escaped: bool)
    requires start != "" && end != "" && Progress(now, was, n, i, start, end, false, escaped)
    requires CommentAt(was[i..n], start, false, escaped) && CommentLength(was[i..n], start, end) == None
    requires i + |start| <= n && after == Filled(now, i, i + |start|)
    ensures after == Remove(was[..n], start, end, false, false) + was[n..]
  {
    var m := |start|;
    BlanksComment(was[i..n], start, end, escaped);
    StillEnds(now, was, n, i, start, end, false, escaped);
    assert was[i..n][m..] == was[i + m..n];
    assert now[i + m..] == now[i..][m..] == was[i..][m..] == was[i + m..n] + was[n..];
    Assoc(now[..i], Blanks(m), was[i + m..n]);
    Assoc(now[..i] + Blanks(m), was[i + m..n], was[n..]);
  }

  lemma Finished(now: string, was: string, n: nat, start: string, end: string, inString: bool, escaped: bool)
    requires start != "" && end != "" && Progress(now, was, n, n, start, end, inString, escaped)
    ensures now == Remove(was[..n], start, end, false, false) + was[n..]
  {
    assert was[n..n] == "";
    assert now == now[..n] + now[n..];
  }

  /** The comment branch: blanks the comment at i and returns its length, or only its opening token, and -1. */
  method BlankComment(text: array<char>, i: nat, start: string, end: string, ghost n: nat) returns (len: int)
    requires EndsAt(text[..], n) && i <= n && CString(end) && start != "" && end != "" && Stands(text[..], i, n, start)
    modifies text
    ensures CommentLength(old(text[i..n]), start, end) == if len < 0 then None else Some(len)
    ensures var m := if len < 0 then |start| else len;
            i + m <= n && text[..] == Filled(old(text[..]), i, i + m)
  {
    hide FindToken, Filled;
    var m := |start|;
    ghost var now := text[..];
    assert now[i..n][m..] == now[i + m..n];
    hide EndsAt;
    var k := StrStr(text, i + m, end, n);
    Blank(text, i, i + m);
    if k < 0 {
      return -1;
    }
    len := m + k + |end|;
    Blank(text, i + m, i + len);
    FilledTwice(now, i, i + m, i + len);
  }

  lemma CommentFits(s: string, start: string, end: string)
    requires start != "" && end != "" && start <= s
    ensures CommentLength(s, start, end).Some? ==> 0 < CommentLength(s, start, end).value <= |s|
  {
  }

  /** The comment branch as a step of the loop. */
  method BlankAndGoOn(text: array<char>, i: nat, start: string, end: string, ghost was: string, ghost n: nat,
                      ghost escaped: bool)
    returns (len: int)
    requires start != "" && end != "" && CString(end) && EndsAt(Text(text), n)
    requires Progress(Text(text), was, n, i, start, end, false, escaped)
    requires CommentAt(was[i..n], start, false, escaped) && Stands(Text(text), i, n, start)
    modifies text
    ensures len < 0 ==> Text(text) == Remove(was[..n], start, end, false, false) + was[n..]
    ensures len >= 0 ==> 0 < len <= n - i && Progress(Text(text), was, n, i + len, start, end, false, false)
  {
    ghost var now := text[..];
    StillEnds(now, was, n, i, start, end, false, escaped);
    CommentFits(was[i..n], start, end);
    hide Remove, Progress, FindToken, CommentAt, EndsAt, CommentLength;
    len := BlankComment(text, i, start, end, n);
    if len < 0 {
      StopsAtOpenComment(now, text[..], was, n, i, start, end, escaped);
    } else {
      SkipsComment(now, text[..], was, n, i, start, end, escaped, len);
    }
  }

  /** One round of the loop: where it goes on and with which flags, or that an open comment ends it. */
  method Step(text: array<char>, at: nat, start: string, end: string, string0: bool, escaped0: bool,
              ghost was: string, ghost n: nat)
    returns (stop: bool, i: nat, inString: bool, escaped: bool)
    requires start != "" && end != "" && CString(start) && CString(end) && at < text.Length && text[at] != NUL
    requires Progress(Text(text), was, n, at, start, end, string0, escaped0)
    modifies text
    ensures stop ==> Text(text) == Remove(was[..n], start, end, false, false) + was[n..]
    ensures !stop ==> at < i && Progress(Text(text), was, n, i, start, end, inString, escaped)
  {
    ghost var now := Text(text);
    i, inString, escaped, stop := at, string0, escaped0, false;
    NowEnds(now, was, n, i, start, end, inString, escaped);
    EndIsUnique(now, n, i);
    TextAt(text, i);
    hide Text, Progress, Remove, Filled, EndsAt, CommentAt, Stands;
    var begins := StartsWith(text, i, start, n);
    Sees(now, was, n, i, start, end, inString, escaped, begins);
    if text[i] == '\\' && !escaped {
      return false, i + 1, inString, true;
    } else if text[i] == '\"' && !escaped {
      return false, i + 1, !inString, false;
    } else if !inString && begins {
      var len := BlankAndGoOn(text, i, start, end, was, n, escaped);
      return len < 0, if len < 0 then i else i + len, inString, false;
    }
    return false, i + 1, inString, false;
  }

  /** remove_comments: the string in the buffer becomes the blanked one, and nothing behind its end changes. */
  method RemoveInPlace(text: array<char>, start: string, end: string, ghost n: nat)
    requires EndsAt(text[..], n) && CString(start) && CString(end)
    modifies text
    ensures text[..] == if start == "" || end == "" then old(text[..])
                        else Remove(old(text[..n]), start, end, false, false) + old(text[n..])
  {
    if start == "" || end == "" {
      return;
    }
    ghost var was := Text(text);
    var stop, i, inString, escaped := false, 0, false, false;
    Begins(was, n, start, end);
    hide Progress, Remove;
    while text[i] != NUL
      invariant i <= n < text.Length
      invariant Progress(Text(text), was, n, i, start, end, inString, escaped)
      decreases n - i
    {
      stop, i, inString, escaped := Step(text, i, start, end, inString, escaped, was, n);
      if stop {
        return;
      }
      Bounds(Text(text), was, n, i, start, end, inString, escaped);
    }
    NowEnds(Text(text), was, n, i, start, end, inString, escaped);
    EndIsUnique(Text(text), n, i);
    Finished(Text(text), was, n, start, end, inString, escaped);
  }

  lemma Bounds(now: string, was: string, n: nat, i: nat, start: string, end: string, inString: bool, escaped: bool)
    requires start != "" && end != "" && Progress(now, was, n, i, start, end, inString, escaped)
    ensures i <= n < |now|
  {
  }
}
