/**
 `ConversationResponse.from_llm_response`: how the augmentation branches cut a turn
 array out of a backend reply. A JSON candidate is chosen (the first `[` up to the
 first `]` after it, else the body of a code fence, else the whole reply), stripped,
 cleared of `#` and `//` comments that end in a line break, and repaired by putting
 commas between object literals that sit on consecutive lines.
 */
module AugmentationParse {

  import opened Base
  import opened PyText
  import opened Json
  import opened Models

  // ---------------------------------------------------------------------------
  // Candidate selection
  // ---------------------------------------------------------------------------

  /** Some `[` has a `]` somewhere after it. */
  predicate HasBracketPair(s: string) {
    exists i, j :: 0 <= i < j < |s| && s[i] == '[' && s[j] == ']'
  }

  /** `re.search(r"\[[\s\S]*?\]", content)`: the leftmost match starts at the first `[`
      and, being lazy, ends at the first `]` after it, which is therefore its only `]`. */
  function NonGreedyMatch(content: string): (r: Option<string>)
    ensures r.None? <==> !HasBracketPair(content)
    ensures r.Some? ==> '[' in content && OccursAt(content, r.value, IndexOf(content, '[').value)
    ensures r.Some? ==> |r.value| >= 2 && r.value[0] == '[' && r.value[|r.value| - 1] == ']'
    ensures r.Some? ==> ']' !in r.value[..|r.value| - 1]
  {
    match IndexOf(content, '[')
    case None => None
    case Some(i) =>
      match IndexOf(content[i + 1..], ']')
      case None =>
        NoCloseAfterFirstOpen(content, i);
        None
      case Some(j) =>
        FirstPair(content, i, j);
        Some(content[i..i + j + 2])
  }

  /** No `]` after the first `[`: no pair at all. */
  lemma NoCloseAfterFirstOpen(content: string, i: nat)
    requires i < |content| && content[i] == '[' && '[' !in content[..i]
    requires ']' !in content[i + 1..]
    ensures !HasBracketPair(content)
  {
    forall a, b | 0 <= a < b < |content| && content[a] == '['
      ensures content[b] != ']'
    {
      if a >= i {
        assert content[b] == content[i + 1..][b - (i + 1)];
      }
    }
  }

  /** The first `[` and the first `]` after it delimit the lazy match. */
  lemma FirstPair(content: string, i: nat, j: nat)
    requires i < |content| && content[i] == '['
    requires j < |content[i + 1..]| && content[i + 1..][j] == ']'
    requires ']' !in content[i + 1..][..j]
    ensures var m := content[i..i + j + 2];
            && HasBracketPair(content) && OccursAt(content, m, i)
            && |m| >= 2 && m[0] == '[' && m[|m| - 1] == ']'
            && ']' !in m[..|m| - 1]
  {
    var m := content[i..i + j + 2];
    assert content[i + j + 1] == ']';
    assert m[..|m| - 1] == content[i..i + j + 1];
    assert content[i + 1..][..j] == content[i + 1..i + j + 1];
    assert content[i..i + j + 1] == [content[i]] + content[i + 1..i + j + 1];
  }

  /** The trimmed body of the code fence opened by the first `marker`, if a closing
      ``` follows; `None` when the fence is never closed. */
  function FencedBody(content: string, marker: string): (r: Option<string>)
    requires Contains(content, marker)
  {
    BodyFrom(content, FindFrom(content, marker, 0).value + |marker|)
  }

  /** The trimmed text from `start` up to the next ```, if there is one. */
  function BodyFrom(content: string, start: nat): Option<string> {
    match FindFrom(content, "```", start)
    case Some(end) => Some(Strip(content[start..end]))
    case None => None
  }

  /** The JSON candidate, or `None` when an unterminated fence leaves it unassigned
      (Python raises UnboundLocalError at the next line). */
  function Candidate(content: string): (r: Option<string>)
    ensures HasBracketPair(content) ==> r == NonGreedyMatch(content)
    ensures !HasBracketPair(content) && !Contains(content, "```") ==> r == Some(content)
  {
    match NonGreedyMatch(content)
    case Some(m) => Some(m)
    case None =>
      FenceMarkers(content);
      if Contains(content, "```json") then FencedBody(content, "```json")
      else if Contains(content, "```") then FencedBody(content, "```")
      else Some(content)
  }

  /** A ```json fence is also a ``` fence. */
  lemma FenceMarkers(s: string)
    ensures Contains(s, "```json") ==> Contains(s, "```")
  {
    if Contains(s, "```json") {
      var i := FindFrom(s, "```json", 0).value;
      assert s[i..i + 3] == s[i..i + 7][..3];
      assert OccursAt(s, "```", i);
    }
  }

  /** `find` returns the occurrence it is shown to be first. */
  lemma FindFromIs(s: string, p: string, start: nat, i: nat)
    requires start <= i && OccursAt(s, p, i)
    requires forall k :: start <= k < i ==> !OccursAt(s, p, k)
    ensures FindFrom(s, p, start) == Some(i)
  {
  }

  /** With no bracket pair, the body of a closed ```json fence, trimmed, is the
      candidate. */
  lemma JsonFenceBody(pre: string, body: string, post: string)
    requires '`' !in pre && '`' !in body
    requires !HasBracketPair(pre + "```json" + body + "```" + post)
    ensures Candidate(pre + "```json" + body + "```" + post) == Some(Strip(body))
  {
    var s := pre + "```json" + body + "```" + post;
    var open, close := |pre|, |pre| + 7 + |body|;
    ClosedFence(pre, "```json", body, post);
    FindPastClean(s, "```json", 0, open);
    FindPastClean(s, "```", open + 7, close);
    FencedBodyIs(s, "```json", open, close);
    JsonFenceChosen(s);
    assert Candidate(s) == Some(Strip(s[open + 7..close]));
    assert s[open + 7..close] == body;
  }

  /** Without a bracket pair, a ```json fence supplies the candidate. */
  lemma JsonFenceChosen(content: string)
    requires !HasBracketPair(content) && Contains(content, "```json")
    ensures Candidate(content) == FencedBody(content, "```json")
  {
  }

  /** The fence opened by the first `marker` and closed by the first ``` after it
      holds `s[open + |marker|..close]`. */
  lemma FencedBodyIs(s: string, marker: string, open: nat, close: nat)
    requires FindFrom(s, marker, 0) == Some(open)
    requires FindFrom(s, "```", open + |marker|) == Some(close)
    ensures Contains(s, marker)
    ensures FencedBody(s, marker) == Some(Strip(s[open + |marker|..close]))
  {
    FencedBodyAt(s, marker, open);
    BodyFromIs(s, open + |marker|, close);
  }

  /** The fence body starts right after the first `marker`. */
  lemma FencedBodyAt(s: string, marker: string, open: nat)
    requires FindFrom(s, marker, 0) == Some(open)
    ensures FencedBody(s, marker) == BodyFrom(s, open + |marker|)
  {
  }

  /** A ``` at `close`, the first one from `start`, ends the body there. */
  lemma BodyFromIs(s: string, start: nat, close: nat)
    requires FindFrom(s, "```", start) == Some(close)
    ensures BodyFrom(s, start) == Some(Strip(s[start..close]))
  {
  }

  /** The markers of `pre + marker + body + "```" + post` sit where the pieces put
      them, with no backtick ahead of either. */
  lemma ClosedFence(pre: string, marker: string, body: string, post: string)
    requires '`' !in pre && '`' !in body
    ensures var s := pre + marker + body + "```" + post;
            var open, close := |pre|, |pre| + |marker| + |body|;
            && OccursAt(s, marker, open) && (forall k :: 0 <= k < open ==> s[k] != '`')
            && OccursAt(s, "```", close)
            && (forall k :: open + |marker| <= k < close ==> s[k] != '`')
            && s[open + |marker|..close] == body
  {
    var s := pre + marker + body + "```" + post;
    var open, close := |pre|, |pre| + |marker| + |body|;
    FiveParts(pre, marker, body, "```", post);
    SliceOf(s, open, marker);
    SliceOf(s, close, "```");
    SliceOf(s, open + |marker|, body);
  }

  /** Where each of five concatenated pieces sits. */
  lemma FiveParts<T>(a: seq<T>, b: seq<T>, c: seq<T>, d: seq<T>, e: seq<T>)
    ensures var s := a + b + c + d + e;
            && (forall k :: 0 <= k < |a| ==> s[k] == a[k])
            && (forall k :: |a| <= k < |a| + |b| ==> s[k] == b[k - |a|])
            && (forall k :: |a| + |b| <= k < |a| + |b| + |c| ==> s[k] == c[k - |a| - |b|])
            && (forall k :: |a| + |b| + |c| <= k < |a| + |b| + |c| + |d| ==>
                  s[k] == d[k - |a| - |b| - |c|])
  {
  }

  /** A slice is what its elements say it is. */
  lemma SliceOf<T>(s: seq<T>, i: nat, p: seq<T>)
    requires i + |p| <= |s|
    requires forall k :: i <= k < i + |p| ==> s[k] == p[k - i]
    ensures s[i..i + |p|] == p
  {
  }

  /** An occurrence with no first character of the pattern before it is the one found. */
  lemma FindPastClean(s: string, p: string, start: nat, i: nat)
    requires |p| > 0 && start <= i && OccursAt(s, p, i)
    requires forall k :: start <= k < i ==> s[k] != p[0]
    ensures FindFrom(s, p, start) == Some(i)
  {
    forall k | start <= k < i
      ensures !OccursAt(s, p, k)
    {
      NotOccursAt(s, p, k);
    }
    FindFromIs(s, p, start, i);
  }

  /** With no bracket pair, a ```json fence that is never closed leaves no candidate. */
  lemma UnterminatedFence(pre: string, rest: string)
    requires '`' !in pre
    requires !Contains(rest, "```")
    requires !HasBracketPair(pre + "```json" + rest)
    ensures Candidate(pre + "```json" + rest) == None
  {
    var s := pre + "```json" + rest;
    var open := |pre|;
    OpenFence(pre, "```json", rest);
    FindPastClean(s, "```json", 0, open);
    assert FindFrom(s, "```", open + 7).None?;
    JsonFenceChosen(s);
    assert FencedBody(s, "```json") == None;
  }

  /** Without a bracket pair or a ```json fence, a plain ``` fence supplies the
      candidate. */
  lemma PlainFenceChosen(content: string)
    requires !HasBracketPair(content) && !Contains(content, "```json")
    requires Contains(content, "```")
    ensures Candidate(content) == FencedBody(content, "```")
  {
  }

  /** With no bracket pair and no ```json fence, the body of a closed ``` fence,
      trimmed, is the candidate. */
  lemma PlainFenceBody(pre: string, body: string, post: string)
    requires '`' !in pre && '`' !in body
    requires !HasBracketPair(pre + "```" + body + "```" + post)
    requires !Contains(pre + "```" + body + "```" + post, "```json")
    ensures Candidate(pre + "```" + body + "```" + post) == Some(Strip(body))
  {
    var s := pre + "```" + body + "```" + post;
    var open, close := |pre|, |pre| + 3 + |body|;
    assert FindFrom(s, "```", 0) == Some(open)
        && FindFrom(s, "```", open + 3) == Some(close)
        && s[open + 3..close] == body by {
      ClosedFence(pre, "```", body, post);
      FindPastClean(s, "```", 0, open);
      FindPastClean(s, "```", open + 3, close);
    }
    assert Candidate(s) == FencedBody(s, "```") by {
      PlainFenceChosen(s);
    }
    FencedBodyIs(s, "```", open, close);
  }

  /** With no bracket pair and no ```json fence, a ``` fence that is never closed
      leaves no candidate either. */
  lemma UnterminatedPlainFence(pre: string, rest: string)
    requires '`' !in pre
    requires !Contains(rest, "```")
    requires !HasBracketPair(pre + "```" + rest)
    requires !Contains(pre + "```" + rest, "```json")
    ensures Candidate(pre + "```" + rest) == None
  {
    var s := pre + "```" + rest;
    var open := |pre|;
    OpenFence(pre, "```", rest);
    FindPastClean(s, "```", 0, open);
    assert FindFrom(s, "```", open + 3).None?;
    PlainFenceChosen(s);
    assert FencedBody(s, "```") == None;
  }

  /** In `pre + marker + rest` the marker sits right after `pre`, and no ``` follows
      it when `rest` holds none. */
  lemma OpenFence(pre: string, marker: string, rest: string)
    requires '`' !in pre
    requires !Contains(rest, "```")
    ensures var s := pre + marker + rest;
            && OccursAt(s, marker, |pre|) && (forall k :: 0 <= k < |pre| ==> s[k] != '`')
            && (forall k :: |pre| + |marker| <= k ==> !OccursAt(s, "```", k))
  {
    var head := pre + marker;
    var s := head + rest;
    assert forall k :: 0 <= k < |pre| ==> s[k] == pre[k];
    SliceOf(s, |pre|, marker);
    forall k | |head| <= k
      ensures !OccursAt(s, "```", k)
    {
      if k + 3 <= |s| {
        TailSlice(head, rest, k - |head|, k - |head| + 3);
        assert !OccursAt(rest, "```", k - |head|);
      }
    }
  }

  /** A slice inside the second of two concatenated pieces. */
  lemma TailSlice<T>(x: seq<T>, y: seq<T>, i: nat, j: nat)
    requires i <= j <= |y|
    ensures (x + y)[|x| + i..|x| + j] == y[i..j]
  {
  }

  // ---------------------------------------------------------------------------
  // Comment removal
  // ---------------------------------------------------------------------------

  /** No `#` has a line break anywhere after it. */
  predicate NoHashComment(s: string) {
    forall i, j :: 0 <= i < j < |s| && s[i] == '#' ==> s[j] != '\n'
  }

  /** No `//` has a line break anywhere after it. */
  predicate NoSlashComment(s: string) {
    forall i, j :: 0 <= i && i + 1 < j < |s| && s[i] == '/' && s[i + 1] == '/' ==> s[j] != '\n'
  }

  lemma SlashPair(s: string, a: int)
    requires 0 <= a && a + 1 < |s|
    ensures OccursAt(s, "//", a) <==> s[a] == '/' && s[a + 1] == '/'
  {
    assert s[a..a + 2] == [s[a], s[a + 1]];
  }

  /** A suffix keeps both guarantees. */
  lemma CommentFreeSuffix(s: string, n: nat)
    requires n <= |s|
    ensures NoHashComment(s) ==> NoHashComment(s[n..])
    ensures NoSlashComment(s) ==> NoSlashComment(s[n..])
  {
    assert forall a :: 0 <= a < |s| - n ==> s[n..][a] == s[a + n];
  }

  /** Keeping `s[..i]`, which holds no `#`, in front of a clean remainder. */
  lemma HashSplice(s: string, i: nat, rest: string)
    requires i <= |s| && '#' !in s[..i] && NoHashComment(rest)
    ensures NoHashComment(s[..i] + rest)
  {
    var r := s[..i] + rest;
    forall a, b | 0 <= a < b < |r|
      ensures r[a] != '#' || r[b] != '\n'
    {
      if a < i {
        assert r[a] == s[..i][a];
      } else {
        assert r[a] == rest[a - i] && r[b] == rest[b - i];
      }
    }
  }

  /** The first match of `#.*?\n`: where its `#` sits and where the text after its line
      break starts; `None` when no `#` has a line break after it. */
  function HashComment(s: string): (r: Option<(nat, nat)>)
    ensures r.Some? ==> r.value.0 < r.value.1 <= |s|
    ensures '#' !in s ==> r.None?
  {
    match IndexOf(s, '#')
    case None => None
    case Some(i) =>
      match IndexOf(s[i + 1..], '\n')
      case None => None
      case Some(j) => Some((i, i + j + 2))
  }

  /** `re.sub(r"#.*?\n", "", s)`: from each `#` through the next line break is deleted;
      a `#` with no line break after it (and everything after it) is kept. */
  function RemoveHashComments(s: string): (r: string)
    ensures '#' !in s ==> r == s
    ensures |r| <= |s|
    decreases |s|
  {
    match HashComment(s)
    case None => s
    case Some((i, e)) => s[..i] + RemoveHashComments(s[e..])
  }

  /** After the `#` pass no `#` has a line break anywhere after it. */
  lemma {:induction false} HashPassClean(s: string)
    ensures NoHashComment(RemoveHashComments(s))
    decreases |s|
  {
    HashCommentFacts(s);
    match HashComment(s)
    case None =>
    case Some((i, e)) =>
      HashUnfold(s, i, e);
      HashPassClean(s[e..]);
      HashSplice(s, i, RemoveHashComments(s[e..]));
  }

  /** No match leaves no `#` comment; a match starts at the first `#`. */
  lemma HashCommentFacts(s: string)
    ensures HashComment(s).None? ==> NoHashComment(s)
    ensures HashComment(s).Some? ==> '#' !in s[..HashComment(s).value.0]
  {
    match IndexOf(s, '#')
    case None =>
    case Some(i) =>
      match IndexOf(s[i + 1..], '\n')
      case None =>
        NoBreakAfterHash(s, i);
      case Some(j) =>
  }

  /** The match found from the first `#` and the first line break after it. */
  lemma HashCommentAt(s: string, i: nat, j: nat)
    requires IndexOf(s, '#') == Some(i)
    requires IndexOf(s[i + 1..], '\n') == Some(j)
    ensures HashComment(s) == Some((i, i + j + 2))
  {
  }

  /** The match found from the first `//` and the first line break after it. */
  lemma SlashCommentAt(s: string, i: nat, j: nat)
    requires FindFrom(s, "//", 0) == Some(i)
    requires IndexOf(s[i + 2..], '\n') == Some(j)
    ensures SlashComment(s) == Some((i, i + j + 3))
  {
    SlashCommentFromAt(s, i, j);
  }

  /** The match from a `//` at `i`, read off the first line break after it. */
  lemma SlashCommentFromAt(s: string, i: nat, j: nat)
    requires i + 2 <= |s| && IndexOf(s[i + 2..], '\n') == Some(j)
    ensures SlashCommentFrom(s, Some(i)) == Some((i, i + j + 3))
  {
  }

  /** The first `#` has no line break after it: then no `#` has. */
  lemma NoBreakAfterHash(s: string, i: nat)
    requires i < |s| && '#' !in s[..i] && '\n' !in s[i + 1..]
    ensures NoHashComment(s)
  {
    forall a, b | 0 <= a < b < |s|
      ensures s[a] != '#' || s[b] != '\n'
    {
      if a < i {
        assert s[a] == s[..i][a];
      } else {
        assert s[b] == s[i + 1..][b - i - 1];
      }
    }
  }

  /** The first `//` has no line break after it: then no `//` has. */
  lemma NoBreakAfterSlashes(s: string, i: nat)
    requires FindFrom(s, "//", 0) == Some(i)
    requires '\n' !in s[i + 2..]
    ensures NoSlashComment(s)
  {
    forall a, b | 0 <= a && a + 1 < b < |s|
      ensures !(s[a] == '/' && s[a + 1] == '/') || s[b] != '\n'
    {
      SlashPair(s, a);
      if a < i {
        assert !OccursAt(s, "//", a);
      } else {
        assert s[b] == s[i + 2..][b - i - 2];
      }
    }
  }

  /** No `//` at all. */
  lemma NoSlashesAtAll(s: string)
    requires FindFrom(s, "//", 0).None?
    ensures NoSlashComment(s)
  {
    forall a, b | 0 <= a && a + 1 < b < |s|
      ensures !(s[a] == '/' && s[a + 1] == '/') || s[b] != '\n'
    {
      SlashPair(s, a);
    }
  }

  /** Before the first `//` no two slashes are adjacent, and the character just before
      it is not a slash. */
  lemma BeforeFirstSlashes(s: string, i: nat)
    requires FindFrom(s, "//", 0) == Some(i)
    ensures i + 2 <= |s| && s[i] == '/' && s[i + 1] == '/'
    ensures forall a :: 0 <= a && a + 1 < i ==> !(s[a] == '/' && s[a + 1] == '/')
    ensures i > 0 ==> s[i - 1] != '/'
  {
    SlashesAt(s, i);
    NoSlashesBefore(s, i);
  }

  /** The first `//` is a pair of slashes with no slash right before it. */
  lemma SlashesAt(s: string, i: nat)
    requires FindFrom(s, "//", 0) == Some(i)
    ensures i + 2 <= |s| && s[i] == '/' && s[i + 1] == '/'
    ensures i > 0 ==> s[i - 1] != '/'
  {
    assert OccursAt(s, "//", i);
    PairAt(s, i);
    if i > 0 {
      assert !OccursAt(s, "//", i - 1);
      NoPairAt(s, i - 1);
    }
  }

  lemma PairAt(s: string, i: nat)
    requires OccursAt(s, "//", i)
    ensures i + 2 <= |s| && s[i] == '/' && s[i + 1] == '/'
  {
    assert s[i..i + 2][0] == s[i] && s[i..i + 2][1] == s[i + 1];
  }

  lemma NoPairAt(s: string, a: nat)
    requires a + 2 <= |s| && !OccursAt(s, "//", a)
    ensures !(s[a] == '/' && s[a + 1] == '/')
  {
    SlashPair(s, a);
  }

  /** No pair of slashes starts before the first `//`. */
  lemma NoSlashesBefore(s: string, i: nat)
    requires FindFrom(s, "//", 0) == Some(i)
    ensures forall a :: 0 <= a && a + 1 < i ==> !(s[a] == '/' && s[a + 1] == '/')
  {
    forall a | 0 <= a && a + 1 < i
      ensures !(s[a] == '/' && s[a + 1] == '/')
    {
      assert !OccursAt(s, "//", a);
      SlashPair(s, a);
    }
  }

  /** Keeping the text before the first `//` in front of a clean remainder. */
  lemma SlashSplice(s: string, i: nat, rest: string)
    requires i + 1 < |s| && s[i] == '/'
    requires forall a :: 0 <= a && a + 1 < i ==> !(s[a] == '/' && s[a + 1] == '/')
    requires i > 0 ==> s[i - 1] != '/'
    requires NoSlashComment(rest)
    ensures NoSlashComment(s[..i] + rest)
  {
    var r := s[..i] + rest;
    forall a, b | 0 <= a && a + 1 < b < |r|
      ensures !(r[a] == '/' && r[a + 1] == '/') || r[b] != '\n'
    {
      if a + 1 < i {
        assert r[a] == s[a] && r[a + 1] == s[a + 1];
      } else if a + 1 == i {
        assert r[a] == s[a];
      } else {
        assert r[a] == rest[a - i] && r[a + 1] == rest[a + 1 - i] && r[b] == rest[b - i];
      }
    }
  }

  /** Deleting a `//` comment keeps the `#` guarantee. */
  lemma SlashSpliceHash(s: string, i: nat, e: nat, rest: string)
    requires i < e < |s| && s[i] == '/' && s[e] == '\n'
    requires NoHashComment(s[e + 1..]) ==> NoHashComment(rest)
    requires NoHashComment(s)
    ensures NoHashComment(s[..i] + rest)
  {
    CommentFreeSuffix(s, e + 1);
    forall a | 0 <= a < i
      ensures s[..i][a] != '#'
    {
      assert s[..i][a] == s[a];
    }
    HashSplice(s, i, rest);
  }

  /** One step of the `//` pass: dropping the first comment, which ends at the line
      break at `e`, in front of a clean remainder. */
  lemma DropSlashComment(s: string, i: nat, e: nat, rest: string)
    requires FindFrom(s, "//", 0) == Some(i)
    requires i + 2 <= e < |s| && s[e] == '\n'
    requires NoSlashComment(rest)
    requires NoHashComment(s[e + 1..]) ==> NoHashComment(rest)
    ensures NoSlashComment(s[..i] + rest)
    ensures NoHashComment(s) ==> NoHashComment(s[..i] + rest)
  {
    BeforeFirstSlashes(s, i);
    SlashSplice(s, i, rest);
    if NoHashComment(s) {
      SlashSpliceHash(s, i, e, rest);
    }
  }

  /** The first match of `//.*?\n`, as `HashComment` gives it for `#`. */
  function SlashComment(s: string): (r: Option<(nat, nat)>)
    ensures r.Some? ==> r.value.0 < r.value.1 <= |s|
    ensures !Contains(s, "//") ==> r.None?
  {
    SlashCommentFrom(s, FindFrom(s, "//", 0))
  }

  /** The match, given where the first `//` is (`None` when there is none). */
  function SlashCommentFrom(s: string, first: Option<nat>): (r: Option<(nat, nat)>)
    requires first.Some? ==> first.value + 2 <= |s|
    ensures r.Some? ==> first.Some? && r.value.0 == first.value < r.value.1 <= |s|
  {
    match first
    case None => None
    case Some(i) =>
      match IndexOf(s[i + 2..], '\n')
      case None => None
      case Some(j) => Some((i, i + j + 3))
  }

  /** `re.sub(r"//.*?\n", "", s)`: the same for `//` comments. */
  function RemoveSlashComments(s: string): (r: string)
    ensures !Contains(s, "//") ==> r == s
    ensures |r| <= |s|
    decreases |s|
  {
    match SlashComment(s)
    case None => s
    case Some((i, e)) => s[..i] + RemoveSlashComments(s[e..])
  }

  /** After the `//` pass no `//` has a line break anywhere after it, and the first
      pass's guarantee survives, since this pass only deletes. */
  lemma {:induction false} SlashPassClean(s: string)
    ensures NoSlashComment(RemoveSlashComments(s))
    ensures NoHashComment(s) ==> NoHashComment(RemoveSlashComments(s))
    decreases |s|
  {
    SlashCommentFacts(s);
    match SlashComment(s)
    case None =>
    case Some((i, e)) =>
      SlashUnfold(s, i, e);
      SlashPassClean(s[e..]);
      DropSlashComment(s, i, e - 1, RemoveSlashComments(s[e..]));
  }

  /** No match leaves no `//` comment; a match runs from the first `//` through the
      line break just before its end. */
  lemma SlashCommentFacts(s: string)
    ensures SlashComment(s).None? ==> NoSlashComment(s)
    ensures SlashComment(s).Some? ==>
              var (i, e) := SlashComment(s).value;
              FindFrom(s, "//", 0) == Some(i) && i + 2 < e && s[e - 1] == '\n'
  {
    match FindFrom(s, "//", 0)
    case None =>
      NoSlashesAtAll(s);
    case Some(i) =>
      match IndexOf(s[i + 2..], '\n')
      case None =>
        NoBreakAfterSlashes(s, i);
      case Some(j) =>
        assert s[i + 2..][j] == s[i + j + 2];
  }

  /** The first `#` of `a + "#" + c + ...` sits right after `a`. */
  lemma FirstHashAfter(a: string, tail: string)
    requires '#' !in a
    ensures IndexOf(a + "#" + tail, '#') == Some(|a|)
  {
    var s := a + "#" + tail;
    assert s[|a|] == '#';
    assert forall k :: 0 <= k < |a| ==> s[k] == a[k];
  }

  /** A `#` comment that a line break ends is deleted through that line break, and the
      text before it is kept as it is. */
  lemma HashCommentDropped(a: string, c: string, b: string)
    requires '#' !in a && '\n' !in c
    ensures RemoveHashComments(a + "#" + c + "\n" + b) == a + RemoveHashComments(b)
  {
    var s := a + "#" + (c + "\n" + b);
    var e := |a| + |c| + 2;
    assert a + "#" + c + "\n" + b == s by {
      Regroup(a, "#", c, b);
    }
    assert RemoveHashComments(s) == s[..|a|] + RemoveHashComments(s[e..]) by {
      HashCommentShape(a, c, b);
      HashUnfold(s, |a|, e);
    }
    assert s[..|a|] == a && s[e..] == b by {
      Pieces(a, "#", c, b);
    }
    HashSpliced(s, |a|, e, a, b);
  }

  /** Regrouping the five pieces of a comment in context. */
  lemma Regroup(a: string, mark: string, c: string, b: string)
    ensures a + mark + c + "\n" + b == a + mark + (c + "\n" + b)
  {
  }

  /** The text around a comment `mark + c + "\n"` placed after `a`. */
  lemma Pieces(a: string, mark: string, c: string, b: string)
    ensures var s := a + mark + (c + "\n" + b);
      s[..|a|] == a && s[|a| + |mark| + |c| + 1..] == b
  {
    SplitAround(a, mark, c + "\n" + b);
    RestAfter(a + mark, c + "\n", b);
  }

  /** One unfolded `#` step, read in terms of the pieces around the comment. */
  lemma HashSpliced(s: string, i: nat, e: nat, x: string, y: string)
    requires i <= e <= |s| && s[..i] == x && s[e..] == y
    requires RemoveHashComments(s) == s[..i] + RemoveHashComments(s[e..])
    ensures RemoveHashComments(s) == x + RemoveHashComments(y)
  {
  }

  /** Where the first `#` comment of `a + "#" + c + "\n" + b` sits. */
  lemma HashCommentShape(a: string, c: string, b: string)
    requires '#' !in a && '\n' !in c
    ensures HashComment(a + "#" + (c + "\n" + b)) == Some((|a|, |a| + |c| + 2))
  {
    var s := a + "#" + (c + "\n" + b);
    assert s == a + "#" + c + "\n" + b;
    FiveParts(a, "#", c, "\n", b);
    HashCommentByIndex(s, |a|, |c|);
  }

  /** The match read off the characters: the first `#` at `i`, the first line break
      after it `j + 1` places on. */
  lemma HashCommentByIndex(s: string, i: nat, j: nat)
    requires i + 1 + j < |s| && s[i] == '#' && s[i + 1 + j] == '\n'
    requires forall k :: 0 <= k < i ==> s[k] != '#'
    requires forall k :: i + 1 <= k < i + 1 + j ==> s[k] != '\n'
    ensures HashComment(s) == Some((i, i + j + 2))
  {
    var t := s[i + 1..];
    assert t[j] == '\n';
    assert forall k :: 0 <= k < j ==> t[k] == s[i + 1 + k];
    HashCommentAt(s, i, j);
  }

  /** What follows the second of three pieces. */
  lemma RestAfter(x: string, y: string, z: string)
    ensures (x + (y + z))[|x| + |y|..] == z
  {
    assert (x + (y + z))[|x| + |y|..] == (y + z)[|y|..];
  }

  /** The pieces on either side of a separator are slices of the whole. */
  lemma SplitAround(a: string, sep: string, tail: string)
    ensures (a + sep + tail)[..|a|] == a
    ensures (a + sep + tail)[|a| + |sep|..] == tail
  {
  }

  /** One step of the `#` pass, unfolded. */
  lemma {:induction false} HashUnfold(s: string, i: nat, e: nat)
    requires HashComment(s) == Some((i, e))
    ensures RemoveHashComments(s) == s[..i] + RemoveHashComments(s[e..])
  {
  }

  /** A `#` with no line break after it is kept, together with everything after it. */
  lemma HashCommentKept(a: string, c: string)
    requires '#' !in a && '\n' !in c
    ensures RemoveHashComments(a + "#" + c) == a + "#" + c
  {
    var s := a + "#" + c;
    FirstHashAfter(a, c);
    assert s[|a| + 1..] == c;
  }

  /** The first `//` of `a + "//" + ...` sits right after `a` when `a + "/"` holds no
      `//`. */
  lemma FirstSlashesAfter(a: string, tail: string)
    requires !Contains(a + "/", "//")
    ensures FindFrom(a + "//" + tail, "//", 0) == Some(|a|)
  {
    var s := a + "//" + tail;
    var h := a + "/";
    assert s[|a|..|a| + 2] == "//";
    forall k | 0 <= k < |a|
      ensures !OccursAt(s, "//", k)
    {
      assert s[k] == h[k] && s[k + 1] == h[k + 1];
      assert !OccursAt(h, "//", k);
      SlashPair(s, k);
      SlashPair(h, k);
    }
    FindFromIs(s, "//", 0, |a|);
  }

  /** A `//` comment that a line break ends is deleted through that line break, and the
      text before it is kept as it is. */
  lemma SlashCommentDropped(a: string, c: string, b: string)
    requires !Contains(a + "/", "//") && '\n' !in c
    ensures RemoveSlashComments(a + "//" + c + "\n" + b) == a + RemoveSlashComments(b)
  {
    var s := a + "//" + (c + "\n" + b);
    var e := |a| + |c| + 3;
    assert a + "//" + c + "\n" + b == s by {
      Regroup(a, "//", c, b);
    }
    assert RemoveSlashComments(s) == s[..|a|] + RemoveSlashComments(s[e..]) by {
      SlashCommentShape(a, c, b);
      SlashUnfold(s, |a|, e);
    }
    assert s[..|a|] == a && s[e..] == b by {
      Pieces(a, "//", c, b);
    }
    SlashSpliced(s, |a|, e, a, b);
  }

  /** One unfolded `//` step, read in terms of the pieces around the comment. */
  lemma SlashSpliced(s: string, i: nat, e: nat, x: string, y: string)
    requires i <= e <= |s| && s[..i] == x && s[e..] == y
    requires RemoveSlashComments(s) == s[..i] + RemoveSlashComments(s[e..])
    ensures RemoveSlashComments(s) == x + RemoveSlashComments(y)
  {
  }

  /** Where the first `//` comment of `a + "//" + c + "\n" + b` sits. */
  lemma SlashCommentShape(a: string, c: string, b: string)
    requires !Contains(a + "/", "//") && '\n' !in c
    ensures SlashComment(a + "//" + (c + "\n" + b)) == Some((|a|, |a| + |c| + 3))
  {
    FirstSlashesAfter(a, c + "\n" + b);
    BreakAfterSlashes(a, c, b);
    SlashCommentByIndex(a + "//" + (c + "\n" + b), |a|, |c|);
  }

  /** In `a + "//" + (c + "\n" + b)` the first line break past the `//` ends `c`. */
  lemma BreakAfterSlashes(a: string, c: string, b: string)
    requires '\n' !in c
    ensures var s := a + "//" + (c + "\n" + b);
            && |a| + 2 + |c| < |s| && s[|a| + 2 + |c|] == '\n'
            && forall k :: |a| + 2 <= k < |a| + 2 + |c| ==> s[k] != '\n'
  {
    var s := a + "//" + (c + "\n" + b);
    assert s == a + "//" + c + "\n" + b;
    FiveParts(a, "//", c, "\n", b);
  }

  /** The match read off the characters: the first `//` at `i`, the first line break
      after it `j + 2` places on. */
  lemma SlashCommentByIndex(s: string, i: nat, j: nat)
    requires FindFrom(s, "//", 0) == Some(i)
    requires i + 2 + j < |s| && s[i + 2 + j] == '\n'
    requires forall k :: i + 2 <= k < i + 2 + j ==> s[k] != '\n'
    ensures SlashComment(s) == Some((i, i + j + 3))
  {
    FirstBreakFrom(s, i + 2, j);
    SlashCommentAt(s, i, j);
  }

  /** Read off the characters: the first line break from `from` on is `j` places on. */
  lemma FirstBreakFrom(s: string, from: nat, j: nat)
    requires from + j < |s| && s[from + j] == '\n'
    requires forall k :: from <= k < from + j ==> s[k] != '\n'
    ensures IndexOf(s[from..], '\n') == Some(j)
  {
    var t := s[from..];
    assert t[j] == '\n';
    assert forall k :: 0 <= k < j ==> t[k] == s[from + k];
  }

  /** One step of the `//` pass, unfolded. */
  lemma {:induction false} SlashUnfold(s: string, i: nat, e: nat)
    requires SlashComment(s) == Some((i, e))
    ensures RemoveSlashComments(s) == s[..i] + RemoveSlashComments(s[e..])
  {
  }

  /** A `//` with no line break after it is kept, together with everything after it. */
  lemma SlashCommentKept(a: string, c: string)
    requires !Contains(a + "/", "//") && '\n' !in c
    ensures RemoveSlashComments(a + "//" + c) == a + "//" + c
  {
    var s := a + "//" + c;
    FirstSlashesAfter(a, c);
    assert s[|a| + 2..] == c;
  }

  // ---------------------------------------------------------------------------
  // Comma repair
  // ---------------------------------------------------------------------------

  const GapIndented: string := "}\n    {"
  const GapBare: string := "}\n{"

  /** A repair pattern: `}` then text with no `}` and no `,`. */
  predicate Anchored(p: string) {
    |p| >= 2 && p[0] == '}' && '}' !in p[1..] && ',' !in p
  }

  /** The pattern with a comma put after its `}`. */
  function WithComma(p: string): (r: string)
    requires Anchored(p)
    ensures |r| == |p| + 1 && r[0] == '}' && r[1] == ',' && r[2..] == p[1..]
  {
    [p[0]] + [','] + p[1..]
  }

  /** `p` occurs nowhere in `s`. */
  predicate Absent(s: string, p: string) {
    forall k :: 0 <= k <= |s| ==> !OccursAt(s, p, k)
  }

  lemma OccursShift(a: string, b: string, q: string, k: int)
    requires k >= |a|
    ensures OccursAt(a + b, q, k) <==> OccursAt(b, q, k - |a|)
  {
    if k + |q| <= |a + b| {
      assert (a + b)[k..k + |q|] == b[k - |a|..k - |a| + |q|];
    }
  }

  lemma AbsentSuffix(s: string, q: string, n: nat)
    requires n <= |s| && Absent(s, q)
    ensures Absent(s[n..], q)
  {
    assert s == s[..n] + s[n..];
    forall k | 0 <= k <= |s[n..]|
      ensures !OccursAt(s[n..], q, k)
    {
      OccursShift(s[..n], s[n..], q, k + n);
    }
  }

  /** `r` is `s` with zero or more commas inserted. */
  predicate InsertsCommas(s: string, r: string)
    decreases |r|
  {
    if |r| == 0 then |s| == 0
    else (r[0] == ',' && InsertsCommas(s, r[1..]))
         || (|s| > 0 && s[0] == r[0] && InsertsCommas(s[1..], r[1..]))
  }

  lemma {:induction false} InsertsCommasReflexive(s: string)
    ensures InsertsCommas(s, s)
  {
    if |s| > 0 {
      InsertsCommasReflexive(s[1..]);
    }
  }

  lemma {:induction false} InsertsCommasPrefix(w: string, s: string, r: string)
    requires InsertsCommas(s, r)
    ensures InsertsCommas(w + s, w + r)
  {
    if |w| > 0 {
      InsertsCommasPrefix(w[1..], s, r);
      assert (w + s)[1..] == w[1..] + s && (w + r)[1..] == w[1..] + r;
      assert (w + s)[0] == (w + r)[0];
      assert InsertsCommas((w + s)[1..], (w + r)[1..]);
    } else {
      assert w + s == s && w + r == r;
    }
  }

  lemma {:induction false} InsertsCommasTransitive(a: string, b: string, c: string)
    requires InsertsCommas(a, b) && InsertsCommas(b, c)
    ensures InsertsCommas(a, c)
    decreases |c|
  {
    if |c| > 0 {
      if c[0] == ',' && InsertsCommas(b, c[1..]) {
        InsertsCommasTransitive(a, b, c[1..]);
      } else if b[0] == ',' && InsertsCommas(a, b[1..]) {
        InsertsCommasTransitive(a, b[1..], c[1..]);
      } else {
        InsertsCommasTransitive(a[1..], b[1..], c[1..]);
      }
    }
  }

  /** Inserting commas adds no other character. */
  lemma {:induction false} InsertsCommasChars(s: string, r: string, c: char)
    requires InsertsCommas(s, r) && c != ','
    ensures c in r ==> c in s
    decreases |r|
  {
    if |r| > 0 {
      assert r == [r[0]] + r[1..];
      if r[0] == ',' && InsertsCommas(s, r[1..]) {
        InsertsCommasChars(s, r[1..], c);
      } else {
        InsertsCommasChars(s[1..], r[1..], c);
        assert s == [s[0]] + s[1..];
      }
    }
  }

  /** `replace` with a comma-inserting replacement only inserts commas. */
  lemma {:induction false} ReplaceInsertsCommas(s: string, p: string)
    requires Anchored(p)
    ensures InsertsCommas(s, ReplaceAll(s, p, WithComma(p)))
    decreases |s|
  {
    var rep := WithComma(p);
    if |s| < |p| {
      InsertsCommasReflexive(s);
    } else if s[..|p|] == p {
      var rest := ReplaceAll(s[|p|..], p, rep);
      ReplaceInsertsCommas(s[|p|..], p);
      InsertsCommasPrefix(p[1..], s[|p|..], rest);
      var r := rep + rest;
      assert r[2..] == p[1..] + rest;
      assert r[1..][1..] == r[2..];
      assert s[1..] == p[1..] + s[|p|..];
      assert InsertsCommas(s[1..], r[1..]);
    } else {
      ReplaceInsertsCommas(s[1..], p);
    }
  }

  /** Text without `}` comes out of the replacement from the same text. */
  lemma {:induction false} PrefixThroughReplace(t: string, p: string, w: string)
    requires Anchored(p) && '}' !in w
    ensures StartsWith(ReplaceAll(t, p, WithComma(p)), w) ==> StartsWith(t, w)
    decreases |t|
  {
    var r := ReplaceAll(t, p, WithComma(p));
    if |w| > 0 && |t| >= |p| {
      if t[..|p|] == p {
        assert r[0] == '}' && w[0] != '}';
      } else {
        var rest := ReplaceAll(t[1..], p, WithComma(p));
        assert r == [t[0]] + rest;
        if StartsWith(r, w) {
          assert StartsWith(rest, w[1..]) by {
            assert rest[..|w| - 1] == r[1..|w|];
          }
          PrefixThroughReplace(t[1..], p, w[1..]);
          assert t[..|w|] == [t[0]] + t[1..][..|w| - 1];
        }
      }
    }
  }

  /** A replacement put in front of text free of `q` creates no `q`. */
  lemma ReplacementHead(p: string, q: string, rest: string)
    requires Anchored(p) && Anchored(q) && Absent(rest, q)
    ensures Absent(WithComma(p) + rest, q)
  {
    var rep := WithComma(p);
    var r := rep + rest;
    forall k | 0 <= k <= |r|
      ensures !OccursAt(r, q, k)
    {
      if k == 0 {
        assert q[1] != ',';
        assert |q| <= |r| ==> r[k..k + |q|][1] == r[1];
      } else if k < |rep| {
        assert rep[k] in rep[1..];
        assert r[k] == rep[k] != '}';
        NotOccursAt(r, q, k);
      } else {
        OccursShift(rep, rest, q, k);
      }
    }
  }

  /** A character passed through unchanged creates no `q` unless `q` started there. */
  lemma PassedHead(s: string, p: string, q: string)
    requires Anchored(p) && Anchored(q) && |s| > 0
    requires Absent(ReplaceAll(s[1..], p, WithComma(p)), q)
    ensures Absent([s[0]] + ReplaceAll(s[1..], p, WithComma(p)), q) || OccursAt(s, q, 0)
  {
    var rest := ReplaceAll(s[1..], p, WithComma(p));
    var r := [s[0]] + rest;
    if OccursAt(r, q, 0) {
      assert StartsWith(rest, q[1..]) by {
        assert rest[..|q| - 1] == r[1..|q|];
      }
      PrefixThroughReplace(s[1..], p, q[1..]);
      assert s[..|q|] == [s[0]] + s[1..][..|q| - 1];
    } else {
      forall k | 0 <= k <= |r|
        ensures !OccursAt(r, q, k)
      {
        if k > 0 {
          OccursShift([s[0]], rest, q, k);
        }
      }
    }
  }

  /** After `s.replace(p, p-with-comma)` the pattern `p` is gone, and another pattern
      `q` that was already absent stays absent. */
  lemma {:induction false} ReplaceLeavesAbsent(s: string, p: string, q: string)
    requires Anchored(p) && Anchored(q)
    requires p == q || Absent(s, q)
    ensures Absent(ReplaceAll(s, p, WithComma(p)), q)
    decreases |s|
  {
    if |s| < |p| {
    } else if s[..|p|] == p {
      if p != q {
        AbsentSuffix(s, q, |p|);
      }
      ReplaceLeavesAbsent(s[|p|..], p, q);
      ReplacementHead(p, q, ReplaceAll(s[|p|..], p, WithComma(p)));
    } else {
      if p != q {
        AbsentSuffix(s, q, 1);
      }
      ReplaceLeavesAbsent(s[1..], p, q);
      PassedHead(s, p, q);
      assert !OccursAt(s, q, 0);
    }
  }

  /** A replacement whose pattern is absent changes nothing. */
  lemma {:induction false} ReplaceAbsent(s: string, p: string, rep: string)
    requires |p| > 0 && Absent(s, p)
    ensures ReplaceAll(s, p, rep) == s
    decreases |s|
  {
    if |s| >= |p| {
      assert !OccursAt(s, p, 0);
      AbsentSuffix(s, p, 1);
      ReplaceAbsent(s[1..], p, rep);
    }
  }

  /** The two `replace` calls that add missing commas between object literals on
      consecutive lines: they only insert commas and leave neither gap behind. */
  function RepairCommas(s: string): (r: string)
    ensures InsertsCommas(s, r)
    ensures Absent(r, GapIndented) && Absent(r, GapBare)
  {
    assert Anchored(GapIndented) && Anchored(GapBare);
    assert WithComma(GapIndented) == "},\n    {" && WithComma(GapBare) == "},\n{";
    var once := ReplaceAll(s, GapIndented, "},\n    {");
    var r := ReplaceAll(once, GapBare, "},\n{");
    ReplaceInsertsCommas(s, GapIndented);
    ReplaceInsertsCommas(once, GapBare);
    InsertsCommasTransitive(s, once, r);
    ReplaceLeavesAbsent(s, GapIndented, GapIndented);
    ReplaceLeavesAbsent(once, GapBare, GapIndented);
    ReplaceLeavesAbsent(once, GapBare, GapBare);
    r
  }

  /** Repairing twice is repairing once. */
  lemma RepairIdempotent(s: string)
    ensures RepairCommas(RepairCommas(s)) == RepairCommas(s)
  {
    var r := RepairCommas(s);
    ReplaceAbsent(r, GapIndented, "},\n    {");
    ReplaceAbsent(r, GapBare, "},\n{");
  }

  /** Inserting commas creates neither a `#` nor a `//` nor a line break. */
  lemma {:induction false} CommaInsertionKeepsComments(s: string, r: string)
    requires InsertsCommas(s, r)
    requires NoHashComment(s) && NoSlashComment(s)
    ensures NoHashComment(r) && NoSlashComment(r)
    decreases |r|
  {
    if |r| > 0 {
      var head := r[0] == ',' && InsertsCommas(s, r[1..]);
      if head {
        CommaInsertionKeepsComments(s, r[1..]);
      } else {
        CommentFreeSuffix(s, 1);
        CommaInsertionKeepsComments(s[1..], r[1..]);
      }
      forall a, b | 0 <= a < b < |r|
        ensures r[a] != '#' || r[b] != '\n'
      {
        if a > 0 {
          assert r[a] == r[1..][a - 1] && r[b] == r[1..][b - 1];
        } else if !head && r[0] == '#' {
          assert forall k :: 1 <= k < |s| ==> s[k] != '\n';
          assert '\n' !in s[1..];
          InsertsCommasChars(s[1..], r[1..], '\n');
          assert r[b] == r[1..][b - 1];
        }
      }
      forall a, b | 0 <= a && a + 1 < b < |r|
        ensures !(r[a] == '/' && r[a + 1] == '/') || r[b] != '\n'
      {
        if a > 0 {
          assert r[a] == r[1..][a - 1] && r[a + 1] == r[1..][a] && r[b] == r[1..][b - 1];
        } else if !head && r[0] == '/' && r[1] == '/' {
          var t := r[1..];
          assert t[0] == '/' && InsertsCommas(s[1..], t);
          assert s[1] == '/' && InsertsCommas(s[2..], r[2..]) by {
            assert s[1..][1..] == s[2..] && t[1..] == r[2..];
          }
          assert forall k :: 2 <= k < |s| ==> s[k] != '\n';
          assert '\n' !in s[2..];
          InsertsCommasChars(s[2..], r[2..], '\n');
          assert r[b] == r[2..][b - 2];
        }
      }
    }
  }

  // ---------------------------------------------------------------------------
  // The whole parse
  // ---------------------------------------------------------------------------

  /** Strip, drop both kinds of comment, repair commas: afterwards no `#` or `//` has a
      line break after it, and no two object literals sit on consecutive lines without
      a comma. */
  function Clean(candidate: string): (r: string)
    ensures NoHashComment(r) && NoSlashComment(r)
    ensures Absent(r, GapIndented) && Absent(r, GapBare)
  {
    var hashFree := RemoveHashComments(Strip(candidate));
    HashPassClean(Strip(candidate));
    var cleaned := RemoveSlashComments(hashFree);
    SlashPassClean(hashFree);
    var r := RepairCommas(cleaned);
    CommaInsertionKeepsComments(cleaned, r);
    r
  }

  /** Without comments, cleaning is stripping followed by the comma repair, so it only
      inserts commas into the stripped candidate; when neither repair pattern occurs
      either, it is plain stripping. */
  lemma CleanWithoutComments(candidate: string)
    requires '#' !in Strip(candidate) && !Contains(Strip(candidate), "//")
    ensures Clean(candidate) == RepairCommas(Strip(candidate))
    ensures InsertsCommas(Strip(candidate), Clean(candidate))
    ensures Absent(Strip(candidate), GapIndented) && Absent(Strip(candidate), GapBare)
            ==> Clean(candidate) == Strip(candidate)
  {
    var s := Strip(candidate);
    if Absent(s, GapIndented) && Absent(s, GapBare) {
      ReplaceAbsent(s, GapIndented, "},\n    {");
      ReplaceAbsent(s, GapBare, "},\n{");
    }
  }

  /** `from_llm_response`: the turns a reply decodes to, or the exception it raises. */
  function ParseTurns(content: string, codec: Codec): (r: Result<seq<Turn>>)
    ensures Candidate(content).None? ==> r == Fail(UnboundLocalError)
    ensures r.Fail? && Candidate(content).Some? ==> r.error.ValueError?
  {
    match Candidate(content)
    case None => Fail(UnboundLocalError)
    case Some(candidate) =>
      match codec.loads(Clean(candidate))
      case None => Fail(ValueError(JsonDecode))
      case Some(j) =>
        match TurnsOf(j)
        case None => Fail(ValueError(InvalidShape))
        case Some(turns) => Success(turns)
  }

  /** A candidate that cleans to the JSON list of some turns' objects parses back to
      exactly those turns, whatever other keys the objects hold. */
  lemma ParsedTurnsAreKept(content: string, codec: Codec, ts: seq<Turn>, extra: map<string, Json>)
    requires Candidate(content).Some?
    requires codec.loads(Clean(Candidate(content).value)) == Some(JArr(TurnsJson(ts, extra)))
    ensures ParseTurns(content, codec) == Success(ts)
  {
    TurnsRoundTrip(ts, extra);
  }
}
