/** The records shared by the dialogue service and the offline analyser:
    the turns of a conversation log and the survey configuration. */
module Records {

  datatype Option<+T> = None | Some(value: T)

  /** The `who` field of a logged turn; any value other than "robot" or
      "patient" is `Unknown`. */
  datatype Speaker = Robot | Patient | Unknown

  /** One logged utterance. The service writes `text` for robot turns and
      `text_raw` for patient turns; a field that is absent is the empty
      string, which Python's `or` treats exactly like a missing value. */
  datatype Turn = Turn(who: Speaker, text: string, textRaw: string)

  /** A survey submodule: its name and the phrasings of its question. */
  datatype Submodule = Submodule(name: string, questions: seq<string>)

  /** A main module of `modules.json`: its `Type` label and submodules. */
  datatype MainModule = MainModule(kind: string, submodules: seq<Submodule>)
}
