/** The `HomeScreen` view state and the updates its handlers make to it.
    Each HTTP request is replaced by its settled outcome, supplied by the
    caller; every update is one atomic step. */
module Feed {
  import opened Options

  /** One content item of the feed (`DataType`). */
  datatype Item = Item(id: string, avatar: string, author: string, content: string, choices: seq<string>)

  /** How a request settled: the decoded response body, or a thrown error. */
  datatype Outcome<T> = Succeeded(body: T) | Failed

  /** The `correct` field of a reveal response: a string, or `null`.
      A missing field reads as `undefined`, which is never `===` to a
      choice either, so it is `None` here as well. */
  type Answer = Option<string>

  /** The screen's state hooks. `correctAnswer` is a plain object keyed by
      item id; a key it does not hold looks up to `undefined`, or to an
      inherited non-string member, and in both cases compares unequal to
      every choice, just like a key that is absent from this map. */
  datatype State = State(data: seq<Item>, correctAnswer: map<string, Answer>, loading: bool, error: string)

  /** The message a failed feed request leaves in `error`. */
  const FetchErrorMessage: string := "Failed to load content"

  /** The state on mount. */
  const Initial: State := State([], map[], false, "")

  /** `fetchData` before its request settles: only the loading flag is raised. */
  function FetchStart(st: State): (r: State)
    ensures r.loading
    ensures r.data == st.data && r.correctAnswer == st.correctAnswer && r.error == st.error
  {
    st.(loading := true)
  }

  /** `fetchData` once its request settles. A success replaces the whole list
      with the payload, a failure keeps the list and records the error
      message; both lower the loading flag, neither clears an earlier error,
      and neither touches the revealed answers. */
  function FetchSettle(st: State, outcome: Outcome<seq<Item>>): (r: State)
    ensures !r.loading
    ensures r.correctAnswer == st.correctAnswer
    ensures outcome.Succeeded? ==> r.data == outcome.body && r.error == st.error
    ensures outcome.Failed? ==> r.data == st.data && r.error == FetchErrorMessage
    ensures st.error != "" ==> r.error != ""
  {
    match outcome
    case Succeeded(payload) => st.(data := payload, loading := false)
    case Failed => st.(error := FetchErrorMessage, loading := false)
  }

  /** `revealAnswer(id)` once its request settles. A success stores the
      returned answer under `id` and nothing else; a failure is only logged,
      so the state is unchanged. */
  function Reveal(st: State, id: string, outcome: Outcome<Answer>): (r: State)
    ensures r.data == st.data && r.loading == st.loading && r.error == st.error
    ensures outcome.Succeeded? ==> id in r.correctAnswer && r.correctAnswer[id] == outcome.body
    ensures outcome.Succeeded? ==> r.correctAnswer.Keys == st.correctAnswer.Keys + {id}
    ensures forall k :: k != id ==> (k in r.correctAnswer <==> k in st.correctAnswer)
    ensures forall k :: k != id && k in st.correctAnswer ==> r.correctAnswer[k] == st.correctAnswer[k]
    ensures outcome.Failed? ==> r == st
  {
    match outcome
    case Succeeded(answer) => st.(correctAnswer := st.correctAnswer[id := answer])
    case Failed => st
  }

  /** Whether a choice of `item` is styled as the correct one:
      `correctAnswer[item.id] === choice`. */
  predicate IsHighlighted(st: State, item: Item, choice: string) {
    item.id in st.correctAnswer && st.correctAnswer[item.id] == Some(choice)
  }

  /** The highlight flag of each of `item`'s choices, in display order. No
      choice is highlighted before the item's answer is revealed; choices
      with equal text are highlighted together; and all highlighted choices
      carry the one stored answer. */
  function Highlights(st: State, item: Item): (r: seq<bool>)
    ensures |r| == |item.choices|
    ensures item.id !in st.correctAnswer ==> forall i :: 0 <= i < |r| ==> !r[i]
    ensures forall i, j :: 0 <= i < |r| && 0 <= j < |r| && item.choices[i] == item.choices[j] ==> r[i] == r[j]
    ensures forall i :: 0 <= i < |r| && r[i] ==> item.id in st.correctAnswer && st.correctAnswer[item.id] == Some(item.choices[i])
    ensures forall i :: 0 <= i < |r| && item.id in st.correctAnswer && st.correctAnswer[item.id] == Some(item.choices[i]) ==> r[i]
  {
    seq(|item.choices|, i requires 0 <= i < |item.choices| => IsHighlighted(st, item, item.choices[i]))
  }

}
