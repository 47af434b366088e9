/** The fixed bucket names and keys of the program's database layout. */
module Layout {
  import opened Keys

  /** The default space. */
  const Notes: string := "notes"
  /** Where checked-off notes go. */
  const History: string := "history"
  /** Holds the `self` pointer to the active space. */
  const Internal: string := "internal"
  const Todo: string := "todo"
  const TodoHistory: string := "todo_history"

  /** The key `self` of the `internal` bucket: the bytes of the text "self". */
  const SelfKey: Key := [0x73, 0x65, 0x6C, 0x66]

  /** The five fixed buckets are five different buckets (their names differ in length). */
  lemma FixedNamesDistinct()
    ensures |{Notes, History, Internal, Todo, TodoHistory}| == 5
    ensures Notes != History && Notes != Internal && Notes != Todo && Notes != TodoHistory
    ensures History != Internal && History != Todo && History != TodoHistory
    ensures Internal != Todo && Internal != TodoHistory && Todo != TodoHistory
  {
    assert |Notes| == 5 && |History| == 7 && |Internal| == 8 && |Todo| == 4 && |TodoHistory| == 12;
  }
}
