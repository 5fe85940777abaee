# Hospital survey robot: dialogue and answer analysis

The system holds a short spoken survey with a hospital patient and later
analyses the transcript offline. This project models the logic of both halves
in Dafny and proves properties of that model.

- **Dialogue (`app.py`).** The robot greets the patient and asks permission.
  A reply containing a refusal word ends the talk. Otherwise the robot asks
  about the visit, picks one main module and asks one phrasing of each of its
  submodules' questions. It then says goodbye. Every reply and every
  non-empty robot line is logged as a turn.
- **Analysis (`llm_analyze.py`).** The logged turns become question/answer
  pairs:
  - a robot line is taken for a question by a keyword heuristic;
  - each question is attributed to the submodule whose question matches it
    best;
  - the next patient turn answers the open question.

  The pairs are written into a prompt for a language model. The model's
  reply is split into blocks at blank lines. Block *i* gives the summary and
  score of pair *i*, and the rows are appended to a CSV file that gets its
  header only once.

Modules:

| file | module | contents |
|---|---|---|
| `text.dfy` | `Text` | Python string semantics the code relies on: the white-space set of `str.isspace`, `strip`, `in`, `startswith`/`endswith`, `splitlines`, `"\n".join`, and the digits matched by `\d` |
| `records.dfy` | `Records` | turns, submodules and main modules shared by both halves |
| `pairing.dfy` | `Pairing` | `choose_answer_text`, `looks_like_question`, `best_submodule_for`, `chatlog_turns_to_qa_list` |
| `prompt.dfy` | `Prompt` | `build_prompt_text` and a reader that inverts it |
| `paragraphs.dfy` | `Paragraphs` | the split of the reply into blocks at blank lines, leftmost and longest as Python's regular expressions find them |
| `report.dfy` | `Report` | `parse_for_csv` and the header-once CSV append |
| `dialogue.dfy` | `Dialogue` | `get_next_robot_turn`, `handle_chat`'s permission check and logging, `start_conversation` |

The similarity ratio of `difflib.SequenceMatcher` is a parameter: any
function into `[0.0, 1.0]`. Each `random.choice` is an index supplied by the
caller, and the requires clauses keep it in range.

Three behaviours of the code that are easy to misread, and that the model
keeps:

- **Prompt sections.** `build_prompt_text` joins the sections with a single
  line feed, so no blank line separates them.
- **Score.** A line holding the score marker "คะแนน" but no digit is passed
  over, and the search goes on to later lines. The score is therefore the
  first digit run of the first line that holds both the marker and a digit.
- **Answer text.** A `text_raw` made only of white space is truthy in
  Python, so it hides `text`, and the answer comes out empty.

## Model

| member | source | states |
|---|---|---|
| Pairing.ChooseAnswerText | llm_analyze.py:71-73 | the answer is stripped; it comes from `text_raw` whenever that field is non-empty, and from `text` only when `text_raw` is empty |
| Pairing.BlankRawHidesText | llm_analyze.py:71-73 | a `text_raw` of white space only hides `text`, so the answer is empty even when `text` holds words |
| Pairing.ContainsSurvivesStrip | llm_analyze.py:76-77 | a non-empty pattern without white space at its ends still occurs after `strip()` if it occurred before, so searching the stripped line for the ignore words loses nothing |
| Pairing.LooksLikeQuestionSpec | llm_analyze.py:75-89 | of `LooksLikeQuestion`: blank lines and lines holding a greeting or closing word anywhere are never questions; any other line is a question exactly when it ends in "?", holds a question particle or opens with "ท่าน" |
| Pairing.LongLeadInRedundant | llm_analyze.py:86-88 | the long opening "วันนี้ท่านมาใช้บริการอะไร" adds nothing, since every line starting with it contains the particle "อะไร" |
| Pairing.CandidatesMembers | llm_analyze.py:94-97 | the candidates the nested loops visit are exactly the (submodule name, question) pairs of the submodules |
| Pairing.ScanSpec | llm_analyze.py:92-101 | the scan ends holding the greatest ratio, or 0.0; it holds a name exactly when some ratio is positive, and that name is the one of the first candidate reaching the greatest ratio, because ties do not replace the best |
| Pairing.BestSubmoduleSpec | llm_analyze.py:91-103 | of `BestSubmoduleFor`: no submodule is guessed when there are none or when no ratio reaches 0.45; otherwise the guess is a submodule owning the first best-matching question, and that question's ratio is at least 0.45 |
| Pairing.ScanSubmodule | llm_analyze.py:97-101 | the inner loop over one submodule's questions continues the running best exactly as the reference scan does |
| Pairing.FindBestSubmodule | llm_analyze.py:91-103 | the imperative nested loops return the same guess as the reference definition |
| Pairing.GuessModule | llm_analyze.py:128-129 | a question is filed under its guessed submodule when that name is non-empty, under the main module when no submodule is guessed or the guessed name is empty, and the filed name is empty only when the main module's name is |
| Pairing.FillGeneral | llm_analyze.py:146-149 | each pair with an empty module is relabelled "ทั่วไป"; every other pair and every question and answer is kept unchanged |
| Pairing.TurnsToQAList | llm_analyze.py:105-150 | at most one pair per patient turn, and no pair is left without a module name |
| Pairing.WalkMatchesExpected | llm_analyze.py:121-144 | `Walk`, the single pending-slot loop, yields exactly one pair per patient turn that finds a question open; that question is the latest captured one since the previous patient turn; pairs come in turn order |
| Pairing.SupersededNeverAnswered | llm_analyze.py:124-127 | a captured question followed by another captured question before any patient turn is never answered |
| Pairing.NewerQuestionOverwrites | llm_analyze.py:124-129 | two captured questions in a row give the same pairs as the second one alone |
| Pairing.MetaTurnIgnored | llm_analyze.py:130-132 | a robot line not taken for a question changes none of the pairs |
| Pairing.OrphanAnswerDropped | llm_analyze.py:141-143 | a patient turn with no open question changes none of the pairs |
| Pairing.WalkSplit | llm_analyze.py:121-144 | the pairs of a log are those of its first part followed by those of the rest, read from the pending slot the first part leaves |
| Pairing.ExchangesAllPaired | llm_analyze.py:121-144 | N captured questions, each answered by the next turn, give exactly N pairs in order, pairing each stripped question with its answer text |
| Prompt.SectionShape | llm_analyze.py:155-156 | the stripped section of a promptable pair is exactly three lines: the module, "Q: question" and "A: answer" ("A:" alone when the answer is empty) |
| Prompt.PromptRoundTrip | llm_analyze.py:153-157 | `BuildPromptText` has an inverse: reading the prompt's lines back three at a time recovers every pair in order, provided each module name is non-empty and every field is one stripped line |
| Paragraphs.MatchEndSpec | llm_analyze.py:173 | a match of `\n\s*\n` starts at a position exactly when a line feed, white space and a line feed start there, and the match found is the longest one |
| Paragraphs.BlocksSpec | llm_analyze.py:173 | of `Blocks`: an empty reply has no blocks; otherwise the blocks and separators rebuild the stripped reply; every separator is a match; no block contains one; none can be extended by the leftmost-longest rule |
| Paragraphs.NoSeparatorOneBlock | llm_analyze.py:173 | a reply without a blank line is a single block: the stripped reply |
| Report.KeepNonBlankSpec | llm_analyze.py:177 | every kept line is stripped and non-empty, and a list of such lines is kept unchanged |
| Report.KeepNonBlankAppend | llm_analyze.py:177 | the filter works line by line in order: filtering a concatenation gives the filtered parts, concatenated |
| Report.KeepNonBlankOne | llm_analyze.py:177 | a single line is kept, stripped, exactly when its stripped form is non-empty, and dropped otherwise |
| Report.NonBlankLinesOfJoin | llm_analyze.py:177 | splitting the newline-join of stripped non-empty lines and filtering blanks gives the same lines back |
| Report.SummarySpec | llm_analyze.py:179-183 | of `Summary`: the summary is the stripped text after the first colon of the first line that has one, or "" when no line has a colon |
| Report.FirstDigitRunSpec | llm_analyze.py:188 | `(\d+)` matches exactly when the line has a digit; the group is the leftmost run of digits and is not followed by another digit |
| Report.ScoreSpec | llm_analyze.py:185-191 | of `Score`: the score is "" exactly when no line holds both "คะแนน" and a digit; otherwise it is the first digit run of the first line that does |
| Report.ParseForCsv | llm_analyze.py:171-200 | one row per pair, in order, with module, question and answer copied from the pair |
| Report.MissingBlocksEmpty | llm_analyze.py:176 | a pair beyond the reply's last block gets an empty summary and an empty score |
| Report.RowFieldsSpec | llm_analyze.py:179-191 | every summary is stripped and every score is empty or made only of digits |
| Report.RowFromBlock | llm_analyze.py:174-191 | row *i* is read from block *i* alone, or from nothing past the last block: its summary is the text after the colon of the block's first line with one, or "" when there is none; its score is the first digit run of the block's first line holding "คะแนน" and a digit, or "" when no line holds both |
| Report.AppendAllSpec | llm_analyze.py:202-210 | of `AppendRows`, which writes the header only when the file is absent: after any number of runs appending to an initially absent file, it holds exactly one header, first, then every row in the order written |
| Dialogue.NextRobotTurn | app.py:87-135 | a robot turn never touches the log; silence leaves the session unchanged; once the activity is heard, the chosen module's type becomes the main module name, its submodules are stored with the cursor at 0, the state becomes asking-questions and its introduction is said; while questions remain, the line said is one of the current submodule's phrasings and the cursor moves on by one |
| Dialogue.NextRobotTurnSpec | app.py:87-135 | every robot turn follows the transition table and keeps the submodule cursor in range; the robot is silent exactly when awaiting permission or after the end; it ends only with the farewell or the closing line |
| Dialogue.NextRobotTurnProgress | app.py:87-135 | every turn in which the robot speaks brings the session strictly closer to the end, so a conversation cannot go on for ever |
| Dialogue.RefusalIff | app.py:165-170 | of `ApplyPermission`: the survey is refused exactly when the reply to the permission question contains "ไม่" anywhere; the longer refusal words add nothing, and other states are left alone |
| Dialogue.Chat | app.py:153-177 | a chat reports the conversation finished exactly when the session ends with it: when the reply to the permission question contains "ไม่", when permission was already denied, when every submodule has been asked, or when it had already ended |
| Dialogue.ChatLog | app.py:162-173 | a chat appends the patient's raw reply and, only when the robot said something non-empty, the robot's line; nothing else is logged |
| Dialogue.StartConversation | app.py:144-150 | a new session greets the patient, awaits permission and holds the greeting as its only turn |
| Dialogue.QuestionSaid | app.py:121-133 | in the question phase the robot says the chosen phrasing of every remaining submodule, in order, then the closing line |
| Dialogue.QuestionFinished | app.py:129-133 | in the question phase only the last chat, the one after every submodule has been asked, finishes the conversation |
| Dialogue.FullSurvey | app.py:87-177 | a patient who consents hears the visit question, the chosen main module's introduction, one phrasing per submodule and the closing line, in that order; only the last of these chats finishes the conversation |
| Dialogue.Refusal | app.py:165-170 | a refusal of the greeting ends the conversation at once with the farewell; the log holds exactly the greeting, the reply and the farewell |

## Left out

- The language-model call (`summarize_and_score`, the system prompt and the few-shot turns) is a remote service. The model takes its reply text as an input.
- `difflib.SequenceMatcher.ratio` is a parameter of the model, not computed. The proofs hold for every similarity function into `[0.0, 1.0]`.
- File, JSON and CSV input and output are reduced to values: the parsed chat log, the rows, and the file as a list of header and record lines. CSV quoting is not modelled.
- Speech synthesis and recognition, Flask routing, session ids, timestamps, the in-memory session table and the deletion of a finished session are left out. The recognised text arrives as a string.
- Saving the finished log to disk is not modelled; the log is the session's turn list.
- The form routes (`get_form_questions`, `submit_form`) and `modules.json` loading are outside the dialogue core. The modules are a parameter.
- `run`'s generic fallback for a plain list of pairs is left out, as are its exit messages. `run` only chains the modelled operations.
- `random.choice` on an empty list raises `IndexError` in Python. Here the pick is a caller-supplied index that the requires clauses keep in range, so the crash is not modelled.
- `\d` is modelled as the ASCII and Thai digits. Decimal digits of other scripts are left out.
- `splitlines` treats "\r\n" as one break; the model treats it as two. After the blank-line filter of `parse_for_csv` the kept lines are the same.
- `get_next_robot_turn` returns `None` for any state without a branch of its own (app.py:135). For `awaiting_permission` and `end` the model keeps that silence. The code only ever stores seven state names (app.py:94-132, 146, 166-170), so `State` has those seven constructors and no case for an unknown name.
- `get_next_robot_turn` reads missing session keys with defaults. The model's session always holds every field, so the defaults are never needed.
- `_ROBOT_IGNORE_PAT` uses `re.IGNORECASE`, which has no effect on the Thai words it lists, so case is not modelled.
- Prompt.PromptRoundTrip: holds only for promptable pairs (non-empty module name, single-line stripped fields). Other pairs can be merged or split by the reader, since the prompt format has no escaping.
