/**
 `format_conversation`: the plain-text transcript sent to the backend, one
 `role: content` line per turn.
 */
module Formatter {

  import opened PyText
  import opened Models

  /** The line rendered for one turn. */
  function Line(t: Turn): string {
    t.role + ": " + t.content
  }

  function Lines(turns: seq<Turn>): (ls: seq<string>)
    ensures |ls| == |turns|
    ensures forall i :: 0 <= i < |turns| ==> ls[i] == Line(turns[i])
  {
    seq(|turns|, i requires 0 <= i < |turns| => Line(turns[i]))
  }

  /** Rendering is per turn: the lines of two turn lists are the lines of each. */
  lemma LinesAppend(a: seq<Turn>, b: seq<Turn>)
    ensures Lines(a + b) == Lines(a) + Lines(b)
  {
    assert forall i :: 0 <= i < |a| + |b| ==> (a + b)[i] == if i < |a| then a[i] else b[i - |a|];
  }

  /** No role or content contains a line break. */
  predicate SingleLine(turns: seq<Turn>) {
    forall i :: 0 <= i < |turns| ==> '\n' !in turns[i].role && '\n' !in turns[i].content
  }

  /** The transcript: empty for no turns; otherwise it opens with the first turn's
      `role: ` and closes with the last turn's line, so it carries no trailing newline
      of its own. */
  function FormatConversation(c: Conversation): (r: string)
    ensures |c.turns| == 0 ==> r == ""
    ensures |c.turns| > 0 ==> StartsWith(r, c.turns[0].role + ": ")
    ensures |c.turns| > 0 ==> EndsWith(r, Line(c.turns[|c.turns| - 1]))
  {
    var ls := Lines(c.turns);
    if |ls| == 0 then ""
    else
      JoinEnds(ls, '\n');
      assert StartsWith(ls[0], c.turns[0].role + ": ");
      Join(ls, '\n')
  }

  /** A single turn's transcript is its line alone, line breaks in it included. */
  lemma OneTurnTranscript(c: Conversation)
    requires |c.turns| == 1
    ensures FormatConversation(c) == Line(c.turns[0])
  {
    assert Lines(c.turns) == [Line(c.turns[0])];
  }

  /** When no turn spans lines, splitting the transcript at line breaks recovers one
      `role: content` line per turn, in order, and there are exactly #turns - 1 line
      breaks. */
  lemma TranscriptLines(c: Conversation)
    requires |c.turns| > 0 && SingleLine(c.turns)
    ensures Split(FormatConversation(c), '\n') == Lines(c.turns)
    ensures Count(FormatConversation(c), '\n') == |c.turns| - 1
    ensures forall i :: 0 <= i < |c.turns| ==>
              StartsWith(Split(FormatConversation(c), '\n')[i], c.turns[i].role + ": ")
  {
    var ls := Lines(c.turns);
    forall k | 0 <= k < |ls|
      ensures '\n' !in ls[k]
    {
      assert ls[k] == c.turns[k].role + ": " + c.turns[k].content;
    }
    SplitJoin(ls, '\n');
    CountJoin(ls, '\n');
  }

  /** The transcript of two non-empty turn lists one after the other is the two
      transcripts separated by a single line break. */
  lemma TranscriptAppend(c: Conversation, d: Conversation)
    requires |c.turns| > 0 && |d.turns| > 0
    ensures FormatConversation(c.(turns := c.turns + d.turns))
            == FormatConversation(c) + "\n" + FormatConversation(d)
  {
    LinesAppend(c.turns, d.turns);
    JoinAppend(Lines(c.turns), Lines(d.turns), '\n');
  }
}
