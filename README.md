# Classroom feedback state machine (DIWNR `main.py`)

A Dafny model of the question/feedback core of a classroom app. In the app,
participants answer rephrasing exercises one variation at a time. A single
teacher ("Camille") must reply to a participant's question before the next
question opens for that participant.

The model covers these parts of `main.py`:

- **Messages and questions** (`questions.dfy`, module `Questions`). A `Question` holds
  an append-only list of `Message`s. Three status flags are computed from that list:
  - `NeedsResponse`: the thread is non-empty and its last message is not the teacher's.
  - `PendingSince`: the specification of `needs_response_since`, the timestamp of the
    first unanswered message. The source computes it with a backwards loop, modelled
    by the method `NeedsResponseSince`.
  - `NeverGotFeedback`: no message is the teacher's.

  `FmtMessages` is the markdown rendering of a thread.
- **A participant's grid** (`grids.dfy`, module `Grids`). It has one row per exercise
  and one question per variation. `NewGrid` is the grid created for a new participant.
  `VisiblePositions` is the page loop of `main`: it shows questions in exercise-major
  order and stops right after the first question that never got feedback.
- **The database `db()`** (`store.dfy`, module `Store`). It maps participant names to
  grids. A Python dictionary keeps insertion order, and the feedback queue depends on
  that order. So the dictionary is a sequence of `User` entries with distinct names.
  - `Lookup`: dictionary access.
  - `SetDefault`: `setdefault`.
  - `AppendAt`: `q.messages.append(...)` on one question.
  - A `Ref` (entry index, exercise, variation) names a question.
- **The stable sort of the queue** (`queue.dfy`, module `Queue`). `Sort` is the unique
  stable arrangement by `needs_response_since`, which is what Python's `list.sort`
  returns.
- **The shared state and its operations** (`classroom.dfy`, module `Classroom`).
  `Database` is a class whose `users` field the methods reassign. Its methods are:
  - `AddUser`: `setdefault` on a participant's first visit.
  - `FeedbackQueue`: the teacher's list of questions to answer.
  - `TeacherReply`: the teacher's "Send".
  - `Submit`: a participant's chat input.

  `DraftDefault` is the pre-filled reply text.

Timestamps are integers. The wall clock `time()` becomes a `now` parameter of the
operations that create messages. The OpenAI call `get_openai_feedback` becomes a
function parameter `openai` of `DraftDefault`.

Two behaviours of `main.py` are worth stating:

- The progression gate opens the next question only after a teacher reply. A question
  that holds only participant messages hides everything after it (main.py:761-763).
- The OpenAI call has no error handling (main.py:652-661, 698).

## Model

| member | source | states |
|---|---|---|
| `Questions.NeedsResponse` | main.py:597-599 | a response is needed exactly when the trailing run of non-teacher messages is non-empty: the thread is non-empty and its last message is not the teacher's |
| `Questions.NeverGotFeedback` | main.py:611-613 | true exactly when no message of the thread is authored by the teacher (so true for an empty thread) |
| `Questions.RunStart` | main.py:601-609 | the start of the trailing run of non-teacher messages: every later message is not the teacher's, and the message just before it is |
| `Questions.RunStartUnique` | main.py:601-609 | any index with those two properties is the run start, so the run is well defined |
| `Questions.PendingSince` | main.py:597-609 | defined exactly when `needs_response` holds (non-empty, last message not from the teacher); its value is the timestamp of the first message of the maximal trailing run of non-teacher messages |
| `Questions.NeedsResponseSince` | main.py:601-609 | the backwards loop with early return at the first teacher message computes `PendingSince` |
| `Questions.TeacherReplyCloses` | main.py:715 | after a teacher message is appended: no response is needed, `needs_response_since` is `None`, and the thread has feedback |
| `Questions.ParticipantMessageOpens` | main.py:758 | after a participant message: a response is needed; the waiting time stays the old one if the thread already waited, else it is the new message's time; `never_got_feedback` is unchanged |
| `Questions.FmtMessages` | main.py:615-619 | the rendering is empty exactly when the thread is, and otherwise starts with the first message's line |
| `Questions.FmtMessagesAppend` | main.py:615-619 | rendering is the line-break join of one `**Me**`/`**author**: content` line per message: one more message adds exactly one separator and one line |
| `Grids.NewGrid` | main.py:744-747 | one row per exercise, one question per variation, each owned by the participant, carrying the variation text and its exercise, with no messages |
| `Grids.VisiblePositions` | main.py:749-766 | the shown questions are valid positions in strict exercise-then-variation order, and a question is shown iff every question before it got teacher feedback |
| `Grids.UnlockedIsPrefix` | main.py:749-766 | the shown questions form a prefix of the traversal order |
| `Grids.LockedAfterUnanswered` | main.py:761-763 | nothing after a question that never got feedback is shown, so the shown part ends at the first such question (inclusive) |
| `Grids.NewGridShowsFirstOnly` | main.py:744-766 | a new participant is shown exactly the first question of the grid |
| `Store.Lookup` | main.py:749 | dictionary access by name: the index of the entry with that name, or none when no entry has it |
| `Store.SetDefault` | main.py:744-747 | afterwards the name is present, the old entries are a prefix of the new ones, and at most one entry is added |
| `Store.SetDefaultIdempotent` | main.py:744-747 | creating a participant twice is the same as creating them once |
| `Store.SetDefaultKeepsExisting` | main.py:744-747 | for a name already present the database is returned unchanged, whatever that participant's grid holds, so an existing grid is never overwritten |
| `Store.SetDefaultAdds` | main.py:744-747 | afterwards the name is present, earlier entries are unchanged, an entry is added iff the name was absent, and a new entry's questions have no messages |
| `Store.SetDefaultPreserves` | main.py:744-747 | names stay distinct and every grid keeps the shape of the catalogue |
| `Store.AppendAt` | main.py:715 | the database keeps its length, the reference stays valid, and the addressed question's messages are the old ones followed by the new message |
| `Store.AppendAtChangesOneQuestion` | main.py:715 | an append changes only the addressed question, which gains exactly the new message at its end; names and the set of valid references are unchanged |
| `Store.AppendAtPreserves` | main.py:758 | appending a message by the owner or by the teacher keeps names distinct, grids in catalogue shape, and each thread written only by its owner and the teacher |
| `Queue.InsertPermutes` | main.py:689 | inserting one entry adds exactly that entry |
| `Queue.InsertSorted` | main.py:689 | inserting into a list sorted by key keeps it sorted |
| `Queue.InsertKeepsTies` | main.py:689 | inserting an entry that comes last in traversal order keeps equal keys in traversal order |
| `Queue.Sort` | main.py:689 | the sorted queue has as many entries as the collected list (its order is stated by the three lemmas below) |
| `Queue.SortPermutes` | main.py:689 | the sorted queue is a permutation of the collected list |
| `Queue.SortSorts` | main.py:689 | the sorted queue is non-decreasing in `needs_response_since` |
| `Queue.SortIsStable` | main.py:689 | the sort is stable: entries with equal keys keep their traversal order |
| `Classroom.DraftDefault` | main.py:697-702 | the model's draft (first message as submission) when enabled and the question never got feedback, the fixed placeholder when not enabled, and the empty string once the question has feedback |
| `Classroom.DraftEmptyAfterFeedback` | main.py:697-702 | once any teacher message is in the thread, the draft is empty whatever the setting |
| `Classroom.TeacherReplyLeavesQueue` | main.py:715 | a teacher reply removes exactly its question from the set of waiting questions and marks it as having feedback |
| `Classroom.SubmitEntersQueue` | main.py:758 | a participant message adds exactly its question to the set of waiting questions (keeping its waiting time if it was there) |
| `Classroom.CollectRow` | main.py:688 | the innermost comprehension loop collects, in order, the waiting questions of one exercise row |
| `Classroom.CollectGrid` | main.py:688 | the middle comprehension loop collects, in order, the waiting questions of one participant |
| `Classroom.Database.constructor` | main.py:628-630 | the database starts empty |
| `Classroom.Database.AddUser` | main.py:744-747 | the new state is `setdefault` of the old one; the database invariant is kept |
| `Classroom.Database.FeedbackQueue` | main.py:688-689 | every entry is a waiting question with its `needs_response_since` as key; every waiting question of every participant is in it, once; it is sorted by key, and equal keys are in participant/exercise/variation order |
| `Classroom.Database.TeacherReply` | main.py:708-716 | a non-empty reply to a waiting question appends one teacher message to that question and changes nothing else; otherwise nothing changes |
| `Classroom.Database.Submit` | main.py:749-766 | a message is accepted iff the question is shown by the gate, does not hold exactly one message, and the text is non-empty; it then appends one message by the participant to that question only |

## Left out

- Streamlit rendering, widgets, forms, `st.rerun`, session state and the caching decorators are UI plumbing. This includes the name prompt and the routing of the teacher's name to the admin panel (main.py:726-741). The model keeps only their effect: `AddUser` is never called with the teacher's name.
- The polling loops (`wait_feedback` and the `deepcopy` change-detection loops) are busy-waiting with no result to state.
- `get_openai_feedback` is a network call. It is a parameter of `DraftDefault`, and its exceptions are not modelled.
- `time()` float timestamps are integers passed in as `now`. Only their order matters.
- `uuid.uuid4()` question ids are not modelled. They are used only as widget keys; questions are designated by `Ref`.
- Exercise prose (main.py:27-579) is static data. The catalogue is a parameter of the `Database` constructor.
- `__repr__`/`__str__` and the "Wipe database" button are debug output and an admin reset.
- The `is not TEACHER_NAME` identity test is modelled as string inequality.
- Python's `list.sort` is modelled by `Queue.Sort`, a functional insertion sort. It is not an in-place Timsort; only its result, the unique stable ordering, is modelled.
- Concurrent sessions are not modelled. Another session could change a question between the render of a form and the click on "Send"; each operation here runs atomically on the current state.
- Classroom.Database.TeacherReply: accepts a reply only for a question that waits at the time of the call. In the app the form exists only for questions in the queue at render time.
