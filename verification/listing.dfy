/**
  The text of the `roles` reply (src/index.ts, lines 181-189): a header line, then
  one role mention `<@&id>` per allowed role in the set's iteration order, joined
  with newlines, or a placeholder when there is nothing to list.

  Beside the formatting, this module defines the reading of such a reply back
  into role ids, and proves that reading recovers exactly the listed ids.
 */
module Listing {
  import opened Options

  const Header: string := "Allowed roles:\n"
  const Placeholder: string := "*No roles configured*"

  /** The platform's mention of a role: `<@&id>`. */
  function Mention(id: string): string {
    "<@&" + id + ">"
  }

  /** `ids.map(r => `<@&${r}>`)`. */
  function Mentions(ids: seq<string>): seq<string> {
    seq(|ids|, i requires 0 <= i < |ids| => Mention(ids[i]))
  }

  /** `lines.join('\n')`: the empty list joins to the empty string. */
  function JoinLines(lines: seq<string>): string
    decreases |lines|
  {
    if lines == [] then ""
    else if |lines| == 1 then lines[0]
    else lines[0] + "\n" + JoinLines(lines[1..])
  }

  /**
    The reply content. The source falls back to the placeholder when the joined
    list is the empty string (`... .join('\n') || '*No roles configured*'`).
   */
  function RolesContent(ids: seq<string>): string {
    var list := JoinLines(Mentions(ids));
    Header + (if list == "" then Placeholder else list)
  }

  /** Cutting a text at every newline. There is always at least one piece. */
  function SplitLines(text: string): (r: seq<string>)
    ensures |r| >= 1
    decreases |text|
  {
    if text == [] then [""]
    else
      var rest := SplitLines(text[1..]);
      if text[0] == '\n' then [""] + rest
      else [[text[0]] + rest[0]] + rest[1..]
  }

  /** The id inside a role mention, if the line is one. */
  function ParseMention(line: string): Option<string> {
    if |line| >= 4 && line[..3] == "<@&" && line[|line| - 1] == '>'
    then Some(line[3..|line| - 1])
    else None
  }

  /** The ids of a list of mention lines, if every line is a mention. */
  function ParseMentions(lines: seq<string>): Option<seq<string>>
    decreases |lines|
  {
    if lines == [] then Some([])
    else
      match (ParseMention(lines[0]), ParseMentions(lines[1..]))
      case (Some(id), Some(ids)) => Some([id] + ids)
      case _ => None
  }

  /** Reads a `roles` reply back into the role ids it lists. */
  function ParseRolesContent(text: string): Option<seq<string>> {
    if |text| < |Header| || text[..|Header|] != Header then None
    else
      var body := text[|Header|..];
      if body == Placeholder then Some([])
      else ParseMentions(SplitLines(body))
  }

  /** A role id can be listed on one line when it holds no newline. */
  predicate OneLine(id: string) {
    '\n' !in id
  }

  /** The placeholder is shown exactly when there is no allowed role. */
  lemma PlaceholderIffEmpty(ids: seq<string>)
    ensures RolesContent(ids) == Header + Placeholder <==> ids == []
  {
    if ids != [] {
      JoinLinesStart(Mentions(ids));
      var list := JoinLines(Mentions(ids));
      assert list[0] == '<';
      assert (Header + list)[|Header|] == '<';
      assert (Header + Placeholder)[|Header|] == '*';
    }
  }

  /** A non-empty join starts with its first line. */
  lemma {:induction false} JoinLinesStart(lines: seq<string>)
    requires lines != []
    ensures |JoinLines(lines)| >= |lines[0]| && JoinLines(lines)[..|lines[0]|] == lines[0]
  {
  }

  /** Splitting a text that starts with a newline-free piece `x`. */
  lemma {:induction false} SplitAfterPiece(x: string, t: string)
    requires '\n' !in x
    ensures SplitLines(x + t) == [x + SplitLines(t)[0]] + SplitLines(t)[1..]
    decreases |x|
  {
    if x == [] {
      var r := SplitLines(t);
      assert x + t == t;
      assert x + r[0] == r[0];
      assert [r[0]] + r[1..] == r;
    } else {
      assert (x + t)[0] == x[0];
      assert (x + t)[1..] == x[1..] + t;
      SplitAfterPiece(x[1..], t);
      assert [x[0]] + (x[1..] + SplitLines(t)[0]) == x + SplitLines(t)[0];
    }
  }

  /** Splitting undoes joining, for newline-free lines. */
  lemma {:induction false} SplitJoin(lines: seq<string>)
    requires lines != []
    requires forall i | 0 <= i < |lines| :: '\n' !in lines[i]
    ensures SplitLines(JoinLines(lines)) == lines
    decreases |lines|
  {
    if |lines| == 1 {
      SplitAfterPiece(lines[0], "");
      assert lines[0] + "" == lines[0];
    } else {
      var tail := JoinLines(lines[1..]);
      assert JoinLines(lines) == lines[0] + ("\n" + tail);
      SplitAfterPiece(lines[0], "\n" + tail);
      assert ("\n" + tail)[0] == '\n';
      assert ("\n" + tail)[1..] == tail;
      assert SplitLines("\n" + tail) == [""] + SplitLines(tail);
      var rest := SplitLines("\n" + tail);
      assert rest[0] == "" && rest[1..] == SplitLines(tail);
      assert forall i | 0 <= i < |lines[1..]| :: lines[1..][i] == lines[i + 1];
      SplitJoin(lines[1..]);
      assert lines[0] + rest[0] == lines[0];
      assert lines == [lines[0]] + lines[1..];
    }
  }

  /** Reading a mention gives back its id. */
  lemma MentionRoundTrip(id: string)
    ensures ParseMention(Mention(id)) == Some(id)
    ensures OneLine(id) ==> '\n' !in Mention(id)
  {
    var m := Mention(id);
    assert m[..3] == "<@&";
    assert m[3..|m| - 1] == id;
  }

  /** Reading a list of mention lines gives back the ids, in order. */
  lemma {:induction false} MentionsRoundTrip(ids: seq<string>)
    ensures ParseMentions(Mentions(ids)) == Some(ids)
    decreases |ids|
  {
    if ids != [] {
      MentionRoundTrip(ids[0]);
      MentionsRoundTrip(ids[1..]);
      assert Mentions(ids)[1..] == Mentions(ids[1..]);
      assert ids == [ids[0]] + ids[1..];
    }
  }

  /**
    The `roles` reply lists exactly the given ids, in order and each as often as
    it occurs: reading the reply back gives the same sequence.
   */
  lemma RolesContentRoundTrip(ids: seq<string>)
    requires forall i | 0 <= i < |ids| :: OneLine(ids[i])
    ensures ParseRolesContent(RolesContent(ids)) == Some(ids)
  {
    var text := RolesContent(ids);
    assert text[..|Header|] == Header;
    if ids != [] {
      var lines := Mentions(ids);
      forall i | 0 <= i < |lines| ensures '\n' !in lines[i] {
        MentionRoundTrip(ids[i]);
      }
      JoinLinesStart(lines);
      var list := JoinLines(lines);
      assert list[0] == '<' != Placeholder[0];
      assert text[|Header|..] == list;
      SplitJoin(lines);
      MentionsRoundTrip(ids);
    } else {
      assert text[|Header|..] == Placeholder;
    }
  }
}
