/**
 * The clean-up applied to generated code both after generation and after
 * modification: text opening with a Markdown code fence loses its first and its
 * last line; any other text is kept as it is.
 */
module Fences {
  import opened Text

  const FENCE: string := "```"

  /** `'\n'.join(lines[1:-1])` when the text starts with three backticks. */
  function StripFence(text: string): (r: string)
    ensures !StartsWith(text, FENCE) ==> r == text
  {
    if StartsWith(text, FENCE) then
      var lines := Split(text, '\n');
      if |lines| < 2 then "" else Join(lines[1..|lines| - 1], '\n')
    else text
  }

  /**
   * A body wrapped in an opening fence line (three backticks and any info string)
   * and a closing line comes back unchanged.
   */
  lemma WrappedBodyRecovered(info: string, body: string, closing: string)
    requires '\n' !in info && '\n' !in closing
    ensures StripFence(FENCE + info + "\n" + body + "\n" + closing) == body
  {
    var opening := FENCE + info;
    var text := FENCE + info + "\n" + body + "\n" + closing;
    assert text == opening + ['\n'] + (body + ['\n'] + closing);
    assert text[..3] == FENCE;
    assert '\n' !in opening by { assert forall c :: c in opening ==> c in FENCE || c in info; }
    SplitAfterHead(opening, body + ['\n'] + closing, '\n');
    SplitBeforeTail(body, closing, '\n');
    var lines := Split(text, '\n');
    assert lines == [opening] + Split(body, '\n') + [closing];
    assert lines[1..|lines| - 1] == Split(body, '\n');
    JoinSplit(body, '\n');
  }

  /**
   * A fenced reply of at most two lines (only an opening line, or an opening
   * and a closing line) leaves nothing behind.
   */
  lemma ShortFencedReplyEmpties(text: string)
    requires StartsWith(text, FENCE) && |Split(text, '\n')| <= 2
    ensures StripFence(text) == ""
  {
    var lines := Split(text, '\n');
    if |lines| == 2 {
      assert lines[1..|lines| - 1] == [];
    }
  }
}
