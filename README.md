# Exam backend: authoring, delivery and request validation

This project models the logic of an exam-administration backend written as
an Express application over PostgreSQL. The model covers:

- how a teacher's nested exam (questions, each with options) is flattened
  into index-keyed rows of the `question` and `option` tables on
  `POST /exam`, and replaced wholesale on `PUT /exam`;
- the guards of `DELETE /exam`, `PUT /exam` and `GET /exam/:exam_id`:
  exam already started, exam missing, exam already taken, time is up;
- the comparator `compareOptions` and the two places option rows are
  regrouped under their questions: `GET /exam/:exam_id` (find the question,
  push the option) and `POST /question` (nested loops over the questions of
  every exam of a class);
- the request validator in front of `/login` and `/register`, including the
  email regular expression, which is written out as a grammar and proved
  equal to a direct description of the addresses it accepts.

The tables are sequences of rows inside a class `Store.ExamStore` whose
methods change them. A `SELECT ... WHERE` is a filter that keeps table
order. `Date.now()` is a parameter `now`. JavaScript's `Array.prototype.sort`
is a stable insertion sort, `Sorting.SortBy`.

No route computes a grade or writes the statistics columns of questions
and options: `POST /submit_exam` (`routes/home-routes.js`, lines 410-413)
stores the grade the client sends. The statistics columns are therefore
only copied through (`Rows.QuestionStats`, `Rows.OptionStats`).

Modules, in dependency order:

- `Wrappers`: `Option`.
- `Sequences`: `Where`, a filter.
- `Sorting`: comparators and the stable sort.
- `Rows`: the table rows and the two comparators.
- `Authoring`: the rows that create and update insert.
- `Assembly`: the grouping in `GET /exam/:exam_id`.
- `QuestionBank`: `POST /question`.
- `Store`: the tables and the handlers.
- `Email`: the regular expression.
- `ValidInfo`: the middleware.

## Model

| member | source | states |
|---|---|---|
| Rows.CompareOptions | routes/home-routes.js:8-22 | the result is -1, 0 or 1; it is 0 exactly when question index and index are both equal, and negative exactly when (question index, index) is lexicographically smaller |
| Rows.CompareOptionsAntisymmetric | routes/home-routes.js:8-22 | swapping the arguments negates the result |
| Rows.CompareOptionsTransitive | routes/home-routes.js:8-22 | "at or before" and "strictly before" are transitive |
| Rows.CompareOptionsIsComparator | routes/home-routes.js:8-22 | `compareOptions` is a valid comparator: signs flip under swapping and order is transitive |
| Rows.CompareQuestionsIsComparator | routes/home-routes.js:286 | the question comparator `a.index - b.index` is a valid comparator |
| Rows.SortedOptionsGrouped | routes/home-routes.js:297 | sorting option rows with `compareOptions` permutes them and leaves them by ascending question index, and by ascending index within a question |
| Rows.SortedQuestionsAscending | routes/home-routes.js:286 | sorting question rows by index permutes them into ascending index order |
| Rows.FindExam | routes/home-routes.js:185-186 | the lookup fails exactly when no exam row has the id; otherwise it returns a row of the table with that id |
| Rows.QuestionsOf | routes/home-routes.js:251 | `SELECT * FROM question WHERE exam_id`: a question row is returned exactly when it is in the table and has that exam id |
| Rows.OptionsNotOf | routes/home-routes.js:152 | `DELETE FROM option WHERE exam_id`: an option row is kept exactly when it is in the table and has another exam id |
| Rows.OptionsOf | routes/home-routes.js:252 | `SELECT * FROM option WHERE exam_id`: an option row is returned exactly when it is in the table and has that exam id |
| Rows.QuestionsNotOf | routes/home-routes.js:153 | `DELETE FROM question WHERE exam_id`: a question row is kept exactly when it is in the table and has another exam id |
| Rows.ExamsNotOf | routes/home-routes.js:154 | `DELETE FROM exam WHERE id`: an exam row is kept exactly when it is in the table and has another id |
| Rows.CompareQuestions | routes/home-routes.js:286 | `a.index - b.index`: negative exactly when a's index is smaller, zero exactly when the indices are equal |
| Rows.TiedQuestionsKeepOrder | routes/home-routes.js:363 | two question rows with the same index, from different exams of a class, come out of the sort in the order they went in |
| Sorting.SortBy | routes/home-routes.js:363-364 | `Array.prototype.sort` as a stable insertion sort; that it permutes and sorts is `Sorting.SortByPermutes` and `Sorting.SortBySorted` |
| Sequences.Where | routes/home-routes.js:379-396 | the skip-or-push loop and the `WHERE` filters, keeping order; its length is at most the input's, and its members are `Sequences.WhereMembers` and `Sequences.WhereComplete` |
| Authoring.QuestionRowsFor | routes/home-routes.js:105-106 | the question rows the outer insert loop writes, in order; their contents are `Authoring.QuestionRowsAt` |
| Authoring.OptionRowsOf | routes/home-routes.js:107-109 | the option rows the inner insert loop writes for one question; their contents are `Authoring.OptionRowsOfAt` |
| Authoring.OptionRowsFor | routes/home-routes.js:201-206 | all option rows the nested loops write, question by question; their positions and contents are `Authoring.OptionRowsForAt` |
| Store.WithInfo | routes/home-routes.js:198 | `UPDATE exam SET ... WHERE id`: the same number of rows, the row with the id gets the new columns and keeps its teacher, every other row is unchanged |
| Store.ClassQuestions | routes/home-routes.js:354 | the join of question and exam on the class name: the question rows whose exam belongs to the class, in table order |
| Store.ClassOptions | routes/home-routes.js:355 | the same join for option rows |
| Store.Join | routes/home-routes.js:354-355 | `SELECT r.* ... JOIN exam e ON r.exam_id = e.id WHERE e.class_name`: each row once per exam row of the class it matches, in table order; its length is at most rows times exams |
| Store.ClassMatchesAtMostOne | routes/home-routes.js:354-355 | with exam ids a key, a row matches at most one exam row of the class, and one exactly when its exam id belongs to the class |
| Store.JoinIsFilter | routes/home-routes.js:354-355 | with exam ids a key, the join is the filter on the class's exam ids: no row is repeated or lost |
| Store.JoinQuestions | routes/home-routes.js:354 | with exam ids a key, the question join equals `Store.ClassQuestions` |
| Store.JoinOptions | routes/home-routes.js:355 | with exam ids a key, the option join equals `Store.ClassOptions` |
| Store.QuestionOrder | routes/home-routes.js:283-287 | the shuffled order when the exam shuffles questions, otherwise the rows sorted by index |
| Store.OptionOrder | routes/home-routes.js:294-298 | the shuffled order when the exam shuffles options, otherwise the rows sorted by `compareOptions` |
| Store.WithInfoIds | routes/home-routes.js:198 | the UPDATE keeps the set of exam ids |
| Sorting.SortByPermutes | routes/home-routes.js:286 | sorting is a permutation of its input |
| Sorting.SortBySorted | routes/home-routes.js:297 | with a valid comparator, the sorted output is sorted |
| Sorting.SortByIdentity | routes/home-routes.js:363-364 | stable sorting of already sorted input returns it unchanged |
| Sorting.SortByStable | routes/home-routes.js:363-364 | with a valid comparator, for every `y` the elements that tie with `y` appear in the sorted output in exactly their input order |
| Sorting.InsertKeepsTies | routes/home-routes.js:363-364 | inserting an element into a sorted sequence appends it after the elements it ties with and leaves their order alone |
| Sequences.WherePermutes | routes/home-routes.js:379-396 | filtering two permutations of each other gives permutations of each other |
| Sequences.WhereMembers | routes/home-routes.js:380-394 | a filter returns only elements of its input that pass the test |
| Sequences.WhereComplete | routes/home-routes.js:380-394 | a filter loses no element that passes the test |
| Sequences.WhereConcat | routes/home-routes.js:379-396 | filtering a concatenation is concatenating the filtered parts |
| Authoring.QuestionRowsAt | routes/home-routes.js:105-106 | one question row per input question; row q has index q, the exam id, the input text and score, and default statistics |
| Authoring.OptionRowsOfAt | routes/home-routes.js:107-108 | one option row per input option of question q; row o has index o and question index q and copies text and correctness |
| Authoring.OptionRowsForAt | routes/home-routes.js:105-110 | option o of question q is the row at position (options of earlier questions) + o of the flattened sequence, with index o and question index q |
| Authoring.OptionRowsForCount | routes/home-routes.js:105-110 | the flattened option rows number the total count of input options |
| Authoring.OptionRowsForSound | routes/home-routes.js:201-206 | every inserted option row carries the exam id and a question index and index in range, and is built from that input option |
| Authoring.OptionRowsForIncreasing | routes/home-routes.js:105-110 | the rows are inserted in strictly increasing `compareOptions` order, so no two share a (question index, index) pair |
| Store.ExamStore.InsertRows | routes/home-routes.js:105-110 | the nested insert loops append exactly the flattened question rows and option rows and change nothing else |
| Store.ExamStore.InsertOptions | routes/home-routes.js:107-109 | the inner insert loop appends exactly the rows of one question's options |
| Store.ExamStore.CreateExam | routes/home-routes.js:102-110 | the new exam gets the next sequence id, which no exam had; the exam row is appended, the flattened rows inserted, and the exam's questions and options are exactly the flattened input |
| Store.ExamStore.DeleteExam | routes/home-routes.js:143-154 | refused, with nothing changed, exactly when `now` is at or after the client's `startsAt`; otherwise the exam's option, question and exam rows are removed and nothing else is |
| Store.ExamStore.UpdateExam | routes/home-routes.js:185-206 | a missing exam is a server error; refused exactly when `now` is at or after the stored start time; neither changes anything; otherwise the exam's rows are replaced by the flattened input and its columns set |
| Store.ExamStore.RetrieveExam | routes/home-routes.js:236-308 | "already completed" exactly when a takes row exists for the student; then a missing exam is a server error, an ended exam is "time is up", questions come shuffled or by index and options shuffled or by `compareOptions`, and a failed grouping is a server error |
| Store.ExamStore.QuestionBankFor | routes/home-routes.js:349-399 | with exam ids a key, the response is the question bank of the two joins' rows, which are exactly the question and option rows of every exam of the class |
| Store.DeleteRemovesOnly | routes/home-routes.js:152-154 | after the deletes the exam has no question or option rows, and every other exam keeps exactly its rows |
| Store.UpdateReplacesQuestions | routes/home-routes.js:195-202 | after delete-then-insert the exam's question rows are exactly the new ones, and every other exam keeps exactly its question rows |
| Store.UpdateReplacesOptions | routes/home-routes.js:194-206 | after delete-then-insert the exam's option rows are exactly the new ones, and every other exam keeps exactly its option rows |
| Store.ExamIdsNotOf | routes/home-routes.js:154 | deleting the exam row removes exactly its id from the table's ids |
| Store.WithInfoRows | routes/home-routes.js:198 | after the UPDATE, the exam with the id has the new columns and every other row is unchanged |
| Store.WithInfoKeyed | routes/home-routes.js:198 | the UPDATE keeps exam ids a key |
| Store.CreateKeepsConsistent | routes/home-routes.js:102-110 | creating keeps ids below the sequence, ids a key, and every question and option row attached to an existing exam |
| Store.DeleteKeepsConsistent | routes/home-routes.js:152-154 | deleting keeps the same invariant |
| Store.UpdateKeepsConsistent | routes/home-routes.js:194-206 | updating an existing exam keeps the same invariant |
| Assembly.FindQuestion | routes/home-routes.js:301 | `findIndex`: the first position whose question index matches, or -1 when none does |
| Assembly.OptionsUnder | routes/home-routes.js:300-302 | the options pushed under question i: the option rows whose `findIndex` is i, in their order; its members are `Assembly.OptionsUnderMembers` |
| Assembly.Groups | routes/home-routes.js:289-303 | one entry per question, in order, each with the options placed under it |
| Assembly.Grouped | routes/home-routes.js:300-308 | the grouping when every option finds its question, and failure otherwise; when it fails is `Assembly.GroupedFailsIff` |
| Assembly.AttachOptions | routes/home-routes.js:289-303 | every question starts with no options and each option is pushed under the first question with its question index; the result fails exactly when some option names no question |
| Assembly.GroupedFailsIff | routes/home-routes.js:300-308 | the grouping fails, which answers 500, exactly when some option's question index matches no question |
| Assembly.GroupedKeepsEveryOption | routes/home-routes.js:300-303 | when the grouping succeeds, the options across all questions number the option rows |
| Assembly.OptionsUnderMembers | routes/home-routes.js:300-303 | an option is under question i exactly when it is an option row whose lookup finds i |
| Assembly.OptionsUnderDistinct | routes/home-routes.js:300-303 | when question indices are distinct, the options under a question are exactly the rows with its index |
| Assembly.OptionsUnderSorted | routes/home-routes.js:294-303 | options sorted by `compareOptions` stay sorted under each question |
| Assembly.UnnamedQuestionEmpty | routes/home-routes.js:289-291 | a question no option names keeps the empty list it started with |
| Assembly.CreatedExamRegroups | routes/home-routes.js:105-110 | retrieving a created exam unshuffled gives back each input question in order, with exactly its own option rows in input order |
| QuestionBank.Bank | routes/home-routes.js:363-399 | one entry per question row, in index order, each with the option rows of its question index and exam id; its properties are the lemmas below |
| QuestionBank.BankCopiesRows | routes/home-routes.js:366-398 | the entries' copied columns, `score` left out, are the question rows' columns with the same multiplicities |
| QuestionBank.CollectQuestions | routes/home-routes.js:363-399 | the nested loops build the question bank: for each question by index, the options with its question index and exam id, in `compareOptions` order |
| QuestionBank.BankAscending | routes/home-routes.js:363 | the entries come in ascending question index order |
| QuestionBank.BankFromRows | routes/home-routes.js:366-377 | every entry copies the columns of some question row |
| QuestionBank.BankCoversRows | routes/home-routes.js:366-398 | every question row has an entry |
| QuestionBank.BankOptionsExact | routes/home-routes.js:379-396 | an entry's options are exactly the option rows with its question index and exam id, unchanged, in `compareOptions` order |
| QuestionBank.OrphanOptionsDropped | routes/home-routes.js:379-396 | an option row that matches no question appears under no entry |
| QuestionBank.BankOptionsCounted | routes/home-routes.js:364-396 | an entry holds each matching option row exactly as many times as the joined option rows hold it |
| Email.ValidEmail | middleware/valid-info.js:3 | the anchored regular expression written as a grammar, one predicate per sub-expression; what it accepts is `Email.ValidEmailIff` |
| Email.WordsIff | middleware/valid-info.js:3 | `\w+([\.-]?\w+)*` matches exactly the non-empty strings over word characters and separators that start and end with a word character and have no two separators in a row |
| Email.ValidEmailIff | middleware/valid-info.js:3 | the regular expression accepts exactly local@domain where both parts have that shape and the domain ends with a dot and two or three word characters |
| Email.ValidEmailProperties | middleware/valid-info.js:3 | an accepted email has exactly one '@', only word characters, '.' and '-' besides it, ends with '.' and 2 or 3 word characters, and both parts have that shape |
| Email.NoAtRejected | middleware/valid-info.js:3 | a string without '@' is rejected |
| Email.AcceptsPlainAddress | middleware/valid-info.js:3 | "a.b@c-d.tr" is accepted |
| Email.RejectsDoubleDot | middleware/valid-info.js:3 | "a..b@c.de" is rejected |
| ValidInfo.ValidEmailValue | middleware/valid-info.js:2-4 | `validEmail(v)`: the regular expression applied to the string conversion of `v`; it accepts no falsy value (`ValidInfo.ValidEmailTruthy`) |
| ValidInfo.Truthy | middleware/valid-info.js:8 | `Boolean(v)` as `every(Boolean)` applies it: undefined, null, false, 0 and the empty string are falsy |
| ValidInfo.ToJsString | middleware/valid-info.js:3 | the string conversion `RegExp.prototype.test` applies to its argument; a falsy value never converts to a string with '@' (`ValidInfo.FalsyHasNoAt`) |
| ValidInfo.Check | middleware/valid-info.js:6-21 | on /login, `next()` exactly when email and password are truthy, never the email message; on /register, the email message exactly when the email is malformed and `next()` exactly when it is well formed and all three fields are truthy; any other path reaches `next()` |
| ValidInfo.ValidEmailTruthy | middleware/valid-info.js:13-16 | a value that passes the regular expression is truthy |
| ValidInfo.RegisterFalsyEmail | middleware/valid-info.js:11-15 | on /register a missing or falsy email gets the invalid-email message |
| ValidInfo.RegisterMissingField | middleware/valid-info.js:16-18 | on /register with a well-formed email, the fill-all-fields message comes exactly when username or password is falsy |
| ValidInfo.RegisterPassesShape | middleware/valid-info.js:11-21 | what /register lets through has exactly one '@' and the accepted shape |
| ValidInfo.LoginIgnoresFormat | middleware/valid-info.js:6-10 | /login lets a malformed email through when the password is truthy |

## Left out

- Grading and statistics: no route computes them; `POST /submit_exam` stores the client's grade and is not modelled. Takes rows are given to the `Store.ExamStore` constructor.
- Random shuffles with `Math.random`: the caller of `RetrieveExam` passes the shuffled order, required only to be a permutation of the fetched rows.
- The order PostgreSQL returns rows in: a select returns rows in table order. The bank and grouping lemmas do not depend on it, but the exact results of `Store.ExamStore.QuestionBankFor` and `Store.ExamStore.RetrieveExam` do, for rows that tie under the sort: in `POST /question`, questions of different exams of one class often share an index (`Rows.TiedQuestionsKeepOrder`).
- PostgreSQL access, BEGIN/COMMIT/ROLLBACK and pool release: each handler is one atomic step, and an insert never fails. On those paths the model has no server error.
- Double responses from the async wrappers, for example a 500 followed by a 200 on create: one outcome per request.
- The login and register handlers: bcrypt, JWT generation and the duplicate-user checks. The second duplicate check looks up the `username` column with the email.
- `authorize`, `index.js`, `utils/user-utils.js`, `GET /exam` (the exam list), `/get_user_information` and `/verify`: authentication, wiring and plain lookups. Delete and update do not check that the caller owns the exam, and the model does not either.
- Dates are integers of milliseconds. `new Date(startsAt)` on an unparsable value compares false, which `Option.None` models.
- JavaScript numbers that are not integers, and NaN, in field values.
- A request body that is not an object: the model's body always has the three fields. The model's `questions`, and each question's `options`, are always lists. In the source only `undefined` or `null` there throws, at `.length` (lines 105, 107, 201 and 203), which rolls back and answers 500. An object, number or boolean has no `length`, so the loop runs zero times, as for the model's empty list: `POST /exam` creates an exam with no questions (or a question with no options) and `PUT /exam` empties the exam, both answering 200. A string is walked character by character. Neither case is modelled.
- Email.ValidEmail: a recogniser of the language the regular expression accepts, with no notion of running time. The source's backtracking engine takes time exponential in the length of a long run of word characters followed by a character that makes the match fail, and `/register` passes any request body's email to it.
- Sorting.SortBy: models `Array.prototype.sort` as a stable sort, as the language has required since 2019; an unstable engine could order ties differently.
- Columns the routes never write: QuestionStats and OptionStats are `None`, the database default, on rows created here.
