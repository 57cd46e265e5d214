/**
  Messages and questions (main.py, `Message` and `Question`).

  A question is one participant's attempt at one variation of one exercise.
  Its messages only ever grow at the end; the three status flags of the
  source (`needs_response`, `needs_response_since`, `never_got_feedback`)
  are computed from the message list on every read.
 */
module Questions {
  import opened Wrappers

  /** The reserved author name of the teacher. */
  const TeacherName: string := "Camille"

  /** Separator placed between two rendered messages (a markdown line break). */
  const LineBreak: string := "  \n"

  /** An utterance; `timestamp` stands for the wall-clock `time()` at creation. */
  datatype Message = Message(user: string, content: string, timestamp: int)

  /** The static description of an exercise; only read by the state machine. */
  datatype Exercise = Exercise(
    instructions: string,
    variations: seq<string>,
    systemPrompt: string,
    examples: seq<(string, string, string)>)

  /** One participant's thread on one variation (`original`) of `exo`. */
  datatype Question = Question(user: string, original: string, exo: Exercise, messages: seq<Message>)

  /** Python's `s[-1]`. */
  function Last<T>(s: seq<T>): T
    requires s != []
  {
    s[|s| - 1]
  }

  /**
    The thread waits for the teacher: it is not empty and the teacher did not
    speak last; equivalently, its trailing run of participant messages is not empty.
   */
  function NeedsResponse(msgs: seq<Message>): (r: bool)
    ensures r <==> RunStart(msgs) < |msgs|
  {
    msgs != [] && Last(msgs).user != TeacherName
  }

  /** No message of the thread is from the teacher (Python's `all(...)`, one message at a time). */
  function NeverGotFeedback(msgs: seq<Message>): (r: bool)
    ensures r <==> forall i :: 0 <= i < |msgs| ==> msgs[i].user != TeacherName
  {
    if msgs == [] then true
    else msgs[0].user != TeacherName && NeverGotFeedback(msgs[1..])
  }

  /**
    Index where the trailing run of participant messages starts: every message
    from `k` on is not the teacher's, and the one just before `k` (if any) is.
    It is `|msgs|` when the run is empty.
   */
  function RunStart(msgs: seq<Message>): (k: nat)
    ensures k <= |msgs|
    ensures forall i :: k <= i < |msgs| ==> msgs[i].user != TeacherName
    ensures 0 < k ==> msgs[k - 1].user == TeacherName
  {
    if msgs == [] then 0
    else if Last(msgs).user == TeacherName then |msgs|
    else RunStart(msgs[..|msgs| - 1])
  }

  /** The run start is the only index with the two properties above. */
  lemma RunStartUnique(msgs: seq<Message>, k: nat)
    requires k <= |msgs|
    requires forall i :: k <= i < |msgs| ==> msgs[i].user != TeacherName
    requires 0 < k ==> msgs[k - 1].user == TeacherName
    ensures RunStart(msgs) == k
  {
  }

  /**
    Specification of `needs_response_since`: the timestamp of the first
    message that has not been answered, i.e. of the earliest message in the
    trailing run of participant messages; `None` when that run is empty.
   */
  function PendingSince(msgs: seq<Message>): (r: Option<int>)
    ensures r.Some? <==> NeedsResponse(msgs)
    ensures r.Some? ==> exists k :: 0 <= k < |msgs| && r.value == msgs[k].timestamp
                          && (forall i :: k <= i < |msgs| ==> msgs[i].user != TeacherName)
                          && (0 < k ==> msgs[k - 1].user == TeacherName)
  {
    var k := RunStart(msgs);
    if k == |msgs| then None else Some(msgs[k].timestamp)
  }

  /**
    `needs_response_since`: walks the messages from the last one backwards,
    remembering the timestamp of the message just visited, and stops at the
    first teacher message.
   */
  method NeedsResponseSince(msgs: seq<Message>) returns (t: Option<int>)
    ensures t == PendingSince(msgs)
  {
    t := None;
    var i := |msgs|;
    while i > 0
      invariant 0 <= i <= |msgs|
      invariant forall j :: i <= j < |msgs| ==> msgs[j].user != TeacherName
      invariant t == if i == |msgs| then None else Some(msgs[i].timestamp)
    {
      i := i - 1;
      if msgs[i].user == TeacherName {
        RunStartUnique(msgs, i + 1);
        return;
      }
      t := Some(msgs[i].timestamp);
    }
    RunStartUnique(msgs, 0);
  }

  /** A reply by the teacher closes the thread and marks it as having received feedback. */
  lemma TeacherReplyCloses(msgs: seq<Message>, m: Message)
    requires m.user == TeacherName
    ensures !NeedsResponse(msgs + [m])
    ensures PendingSince(msgs + [m]) == None
    ensures !NeverGotFeedback(msgs + [m])
  {
  }

  /**
    A participant message opens the thread. The waiting time is not reset by a
    follow-up: if the thread was already waiting it keeps its old timestamp,
    otherwise it waits since the new message.
   */
  lemma ParticipantMessageOpens(msgs: seq<Message>, m: Message)
    requires m.user != TeacherName
    ensures NeedsResponse(msgs + [m])
    ensures PendingSince(msgs + [m])
            == if NeedsResponse(msgs) then PendingSince(msgs) else Some(m.timestamp)
    ensures NeverGotFeedback(msgs + [m]) == NeverGotFeedback(msgs)
  {
  }

  /** How one message is shown to `viewer`: bold author ("Me" for the viewer's own), then the text. */
  function FmtLine(m: Message, viewer: string): string
  {
    "**" + (if m.user == viewer then "Me" else m.user) + "**: " + m.content
  }

  /** `fmt_messages`: the rendered messages joined by markdown line breaks. */
  function FmtMessages(msgs: seq<Message>, viewer: string): (r: string)
    ensures r == "" <==> msgs == []
    ensures msgs != [] ==> FmtLine(msgs[0], viewer) <= r
  {
    if msgs == [] then ""
    else if |msgs| == 1 then FmtLine(msgs[0], viewer)
    else FmtLine(msgs[0], viewer) + LineBreak + FmtMessages(msgs[1..], viewer)
  }

  /** Rendering is incremental: one more message adds one separator and one line at the end. */
  lemma {:induction false} FmtMessagesAppend(msgs: seq<Message>, m: Message, viewer: string)
    ensures FmtMessages(msgs + [m], viewer)
            == if msgs == [] then FmtLine(m, viewer)
               else FmtMessages(msgs, viewer) + LineBreak + FmtLine(m, viewer)
  {
    if |msgs| > 1 {
      assert (msgs + [m])[1..] == msgs[1..] + [m];
      FmtMessagesAppend(msgs[1..], m, viewer);
    } else if |msgs| == 1 {
      assert (msgs + [m])[1..] == [m];
    }
  }
}
