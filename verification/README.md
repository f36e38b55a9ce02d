# Student management system: codec and database model

A Dafny model of two linked parts of the student management system, with proofs.

- **The delimiter codec** of `StringTool` (client and server), its SQL twin `str_spilt`, and the
  client's table parser: splitting, joining, printing ints and bytes, the `f=v,f=v` list of an UPDATE.
- **The student database**: the tables `userInfo`, `studScore` and `userAuthority`, the SQL statements
  on them, and the stored procedures that register, score, update and delete users.

The two meet in the score upsert: the server prints one list for the UPDATE branch and two lists for
the INSERT branch, and the model reads all three as MySQL would.

| file | contents |
|---|---|
| `Wrappers.dfy` | Option |
| `Text.dfy` | searching, `FullSplit` (every piece kept), `Join`, `Pieces` (what `Splite` returns) |
| `Decimal.dfy` | `%d`, `atoi`, widths of decimal text |
| `StringTool.dfy` | the codec's methods and its round trips |
| `IntSeparators.dfy` | exactly which separators a printed int list survives |
| `TableText.dfy` | `StrVecToStr2Vec` |
| `StrSpilt.dfy` | `SUBSTRING_INDEX`, `REVERSE`, `REPLACE` and the procedure `str_spilt` |
| `ScoreSql.dfy` | reading the score fragments, what the printed UPDATE list says |
| `Tables.dfy` | tables as sequences of rows: counting, deleting, updating, selecting |
| `StudentDb.dfy` | the state, statements (`Exec`), statement texts, procedures as a whole (`Apply`) |
| `Integrity.dfy` | the invariant, and which statements keep it |
| `Effects.dfy` | every procedure keeps the invariant; what creation and deletion leave |
| `Scripts.dfy` | the statements each call issues; calls cut off after some of them |
| `Procedures.dfy` | class `Database`: the procedures statement by statement |
| `Deletions.dfy` | batch and single deletion compared |
| `Updates.dfy` | what an update of user data leaves |
| `Upsert.dfy` | which lists each upsert branch accepts, and when the branches agree |
| `Runs.dfy` | whole runs: reachable states, fresh ids, who is removed by whom |
| `LastWriter.dfy` | whole runs: the last writer of a score wins |
| `Requests.dfy` | which score requests are accepted; runs of requests that fit |
| `MarkValues.dfy` | which number a mark text means, and which marks a request leaves |
| `Answers.dfy` | what each call answers and leaves, said of its arguments, the rows and their cells |
| `Counterexamples.dfy` | inputs for the findings below |

## How to read it

`Database` holds the three tables as fields and runs each procedure as a series of `Execute` steps.
Its ghost `log` keeps the state after every statement. Each procedure starts from any consistent state,
such as a call that was cut off leaves, and its `ensures` says three things: the new state and result are
those of `Apply`, which describes the call as a whole; the states logged are exactly those of the
call's `Script`, each of them consistent; and the invariant between calls is kept. The lemmas about runs
are about `Apply` and, for calls cut off after any of their statements, about `Script` (`CutRun`).
`Answers` and `MarkValues` say what `Apply` does without its own functions: when a call is accepted, in terms
of its arguments with the declared lengths written out, what it returns, and which rows and cells it
leaves.

Conventions of the model:

- Procedures run one at a time. A cursor is a snapshot taken when it is opened.
- A value, argument or variable that does not fit is an error and writes nothing (strict SQL mode). An
  INSERT refused for a duplicate account still uses up an id, as InnoDB does.
- `strInsertInfo` and the SET list of a user update are given as parsed values; their text, used for the
  length limits, is printed as the server prints it. Text values hold no quotes or backslashes. The SET
  list never assigns `userID`; it may assign `account`, as the server allows. A score list that names
  the column `userID`, which MySQL's UPDATE would accept, is read as a bad statement.
- Account and column names are compared by equality, which stands for the collation's. The columns of
  the initial script are spelled as there (`Math`), the server's nine as in SubjectsMgr.cpp:20-28 (`math`).
- `sprintf_s` that meets a too small buffer ends the program; the methods concerned return `None`.

## Findings

- `str_spilt` returns the pieces of every text only for one-character separators
  (`StrSpilt.SpiltIsFullSplitIffOneCharacter`).
- For a registered user the two branches of the score upsert differ on a printed request exactly when
  its pieces are valid, the UPDATE text fits, and a column is named twice, a list ends in an empty piece,
  or the INSERT text exceeds 200 characters, as it can by four; the UPDATE then goes through and the
  INSERT fails (`Upsert.BranchesAgree`).
  - A repeated column takes one column: `Math,Math` with `1,2` (`Counterexamples.RepeatedColumn`).
  - So does a comma at the end: `Math` with `5,` (`Counterexamples.CommaAtTheEnd`). The client checks that
    marks are digits; the server splits them at `|` and passes the piece on (ScoreProc.cpp:125-142).
  - The length takes six columns or more (`Upsert.FewSubjectsAgree`), so it makes no difference in the
    states reached here, which have the three of the initial script (`Requests.ReachableBranchesAgree`). With
    the server's nine it takes marks padded with zeros (`Upsert.UnpaddedMarksAgree`), which the client
    accepts (AddScoreSysProc.cpp:236-247 and 521-544): `00000090` for seven subjects and `000000090` for two
    (`Counterexamples.PaddedMarksTooLong`).
- A registration cut off after its first statement leaves a user without an authority row, and no
  later call gives that id one (`Scripts.AuthorityNeverComes`, `Counterexamples.RegistrationCutOff`).
- Deleting a range and deleting its accounts one by one differ exactly for accounts longer than 31
  characters, which an update of the account can produce, and for a student without the grant, who can
  delete itself in a batch but not singly (`Deletions.BatchIsOneByOne`; runs from the initial state that
  lead there are `Counterexamples.LongAccountStays` and `Counterexamples.StudentDeletesItself`).
- `Splite` drops a piece from every text that ends in the separator only when the separator cannot
  overlap itself (`Text.TailDroppedIffBorderless`).

## Model

| member | source | states |
|---|---|---|
| Text.Find | StudMangeSysServer/StudMangeSysServer/Tools/StringTool.cpp:31-32 | the position found is at or after the start and the separator stands there, or it is -1 |
| Text.FindIsFirst | StudMangeSysServer/StudMangeSysServer/Tools/StringTool.cpp:31-32 | no match lies before the position found, and none anywhere when it is -1 |
| Text.FullSplitCharacterized | StudMangeSysServer/StudMangeSysServer/Tools/StringTool.cpp:27-43 | the split of s is the one list that joins to s and whose pieces end exactly where the first separators begin |
| Text.SpliteOfCombVecToStr | StudMangeSysServer/StudMangeSysServer/Tools/StringTool.cpp:14-46 | splitting a joined list gives it back, less one empty last piece, if and only if it is empty or well separated; the separator may overlap itself |
| Text.SpliteInvertsCombVecToStr | StudMangeSysServer/StudMangeSysServer/Tools/StringTool.cpp:92-109 | the list itself comes back if and only if it is empty, or well separated with a nonempty last piece |
| Text.SpliteReconstructs | StudMangeSysServer/StudMangeSysServer/Tools/StringTool.cpp:27-45 | joining the pieces rebuilds the text, short of the last separator when the scan consumed everything |
| Text.EmptySeparatorCutsNothing | StudMangeSysServer/StudMangeSysServer/Tools/StringTool.cpp:16-25 | with the empty separator a text is its own one piece, and the empty text has none |
| Text.SpliteConservesLength | StudMangeSysServer/StudMangeSysServer/Tools/StringTool.cpp:27-45 | the pieces and one separator per cut make up the length of the text |
| Text.TailDroppedIffBorderless | StudMangeSysServer/StudMangeSysServer/Tools/StringTool.cpp:32-38 | every text ending in the separator loses a piece exactly when no end of the separator is also its beginning |
| Text.PiecesAvoidSeparator | StudMangeSysServer/StudMangeSysServer/Tools/StringTool.cpp:27-43 | no piece contains a one-character separator |
| StringTool.Splite | StudMangeSysServer/StudMangeSysServer/Tools/StringTool.cpp:14-46 | the loop returns the split less one empty last piece, nothing for the empty text, the whole text for the empty separator, and terminates |
| StringTool.CombVecToStr | StudMangeSysServer/StudMangeSysServer/Tools/StringTool.cpp:92-109 | the loop returns the join of the list |
| StringTool.CombIntsToStr | StudMangeSysServer/StudMangeSysServer/Tools/StringTool.cpp:70-90 | the joined decimal texts, and a buffer overflow exactly when some element is below -999999999 |
| StringTool.NumberToStr | StudMangeSysServer/StudMangeSysServer/Tools/StringTool.cpp:168-176 | the decimal text of any 32-bit int fits the 12 byte buffer |
| Decimal.ElevenByteBuffer | StudMangeSysServer/StudMangeSysServer/Tools/StringTool.cpp:83-85 | a 32-bit int fits 11 bytes if and only if it is at least -999999999 |
| Decimal.TwelveByteBuffer | StudMangeSysServer/StudMangeSysServer/Tools/StringTool.cpp:170-172 | every 32-bit int fits 12 bytes |
| Decimal.NatWidth | StudMangeSysServer/StudMangeSysServer/Tools/StringTool.cpp:83-85 | a decimal text has at most k digits if and only if the number is below the k-th power of ten |
| Decimal.AtoiOfIntToStr | StudMangeSysServer/StudMangeSysServer/Tools/StringTool.cpp:239 | atoi inverts the printing of every int |
| Decimal.AtoiReads | StudMangeSysServer/StudMangeSysServer/Tools/StringTool.cpp:239 | atoi skips blanks, takes one sign and the digits after it, and ignores the rest |
| StringTool.IntListRoundTrip | StudMangeSysServer/StudMangeSysServer/Tools/StringTool.cpp:70-90 | splitting and atoi give back every int list, of whatever size of ints, when the separator starts with neither a digit nor '-' |
| IntSeparators.IntListRoundTripIff | StudMangeSysServer/StudMangeSysServer/Tools/StringTool.cpp:70-90 | splitting and atoi give back every list of ints that can be printed if and only if the separator is not '-' and no beginning of it both ends some printed int and is followed in it by the separator's own beginning |
| IntSeparators.EarlyMeets | StudMangeSysServer/StudMangeSysServer/Tools/StringTool.cpp:80-87 | a separator found too early after some printed int is one of these |
| StringTool.CombArrayToStr | StudMangeSysServer/StudMangeSysServer/Tools/StringTool.cpp:111-128 | the loop returns the joined decimal texts of the first iLen bytes, or nothing for a null array |
| StringTool.StrSpliteToUcArray | StudMangeSysServer/StudMangeSysServer/Tools/StringTool.cpp:228-243 | cells below both lengths take their piece modulo 256, later cells stay; false exactly for a null array, no room or the empty text |
| StringTool.ByteArrayRoundTrip | StudMangeSysServer/StudMangeSysServer/Tools/StringTool.cpp:228-243 | the text of a nonempty array is not empty, so reading it back returns true; it copies the cells both arrays have and leaves the rest, for separators not starting with a digit |
| StringTool.PrintedIntsWrap | StudMangeSysServer/StudMangeSysServer/Tools/StringTool.cpp:228-243 | a printed list of ints is read cell by cell modulo 256 |
| StringTool.CombVecsToSqlUpdateSetStr | StudMangeSysServer/StudMangeSysServer/Tools/StringTool.cpp:205-226 | the comma-joined assignments; empty for empty or unequal lists; a buffer overflow exactly when some assignment exceeds 29 characters |
| StringTool.AssignmentTooLong | StudMangeSysServer/StudMangeSysServer/Tools/StringTool.cpp:190-200 | the buffer overflows exactly for lists of equal length with an assignment of more than 29 characters |
| StringTool.CombToSqlUpdateSetStr | StudMangeSysServer/StudMangeSysServer/Tools/StringTool.cpp:178-203 | the same for the pieces of the two texts |
| TableText.StringTable.StrVecToStr2Vec | StudMangeSysClient/StudMangeSysClient/Tools/StringTool.cpp:255-270 | the table becomes the split lines that do not contain the filter, in order |
| TableText.TableRoundTrip | StudMangeSysClient/StudMangeSysClient/Tools/StringTool.cpp:255-270 | a printed table is read back unchanged if and only if every row survives: its text lacks the filter and its list comes back |
| TableText.FilteredLinesAreIgnored | StudMangeSysClient/StudMangeSysClient/Tools/StringTool.cpp:259-263 | any number of lines with the filter, put in anywhere, change nothing |
| TableText.ContainsMeans | StudMangeSysClient/StudMangeSysClient/Tools/StringTool.cpp:259-263 | a line is filtered exactly if the filter stands somewhere in it |
| StrSpilt.Session.StrSpilt | msyql文件/Create_Procedure.sql:8-32 | the temporary table ends with one row per piece counted, the i-th being the REVERSE/SUBSTRING_INDEX text of turn i; old rows are gone |
| StrSpilt.CountedRows | msyql文件/Create_Procedure.sql:16-22 | the LENGTH/REPLACE arithmetic counts the pieces |
| StrSpilt.EmptySeparatorRow | msyql文件/Create_Procedure.sql:16-27 | the empty separator yields one empty row |
| StrSpilt.RowFollowsLastReversed | msyql文件/Create_Procedure.sql:27 | for any separator the row of turn i is what follows the last occurrence of the reversed separator in the first i pieces, or all of them without one |
| StrSpilt.OneCharacterRow | msyql文件/Create_Procedure.sql:27 | for a one-character separator the row of turn i is the i-th piece |
| StrSpilt.SpiltIsFullSplitIffOneCharacter | msyql文件/Create_Procedure.sql:16-30 | the rows are the pieces of every text if and only if the separator has one character |
| StrSpilt.SpliteIsSpiltLessEmptyTail | msyql文件/Create_Procedure.sql:16-30 | for one-character separators Splite returns the rows of str_spilt less one empty last row |
| ScoreSql.UpsertCoherence | msyql文件/Create_Procedure.sql:68-73 | the printed UPDATE list and the INSERT lists parse to the same pairs, or both to nothing, exactly when valid pieces repeat no column and neither list ends in an empty piece; text lengths apart |
| ScoreSql.PrintedSetAccepted | StudMangeSysServer/StudMangeSysServer/Tools/StringTool.cpp:178-203 | the printed list parses exactly when the pieces are as many columns as marks, at least one, all columns subjects and all marks tinyints |
| ScoreSql.PrintedSetParses | StudMangeSysServer/StudMangeSysServer/Tools/StringTool.cpp:178-203 | MySQL reads in the printed list exactly the pairs of the pieces |
| ScoreSql.PrintedSetLength | StudMangeSysServer/StudMangeSysServer/Tools/StringTool.cpp:190-200 | for any lists of equally many pieces the printed list is one character longer than both together, less one for each list that ends in an empty piece |
| ScoreSql.AssignWrites | msyql文件/Create_Procedure.sql:69-73 | listed subjects take the listed mark, the others keep theirs |
| MarkValues.MarkMeans | msyql文件/Create_Procedure.sql:68-73 | a mark text means v exactly if v is a tinyint that the text writes: digits, with or without a minus |
| MarkValues.MarkOfPrinted | msyql文件/Create_Procedure.sql:68-73 | a printed int is a mark exactly if it is a tinyint, and then means itself |
| MarkValues.RequestReads | msyql文件/Create_Procedure.sql:68-73 | both branches read in a request for subjects and marks exactly these pairs, the INSERT only without a repetition |
| MarkValues.LastPairCounts | msyql文件/Create_Procedure.sql:69-70 | of several pairs for a subject the last counts, and a subject without one keeps its mark |
| MarkValues.RequestStores | msyql文件/Create_Procedure.sql:60-134 | an accepted request for subjects and marks leaves each mark under its subject in the account's row, in either branch; the others are as before, or at 0 in a first score |
| MarkValues.RequestForFits | msyql文件/Create_Procedure.sql:60-134 | such a request for different subjects is accepted while ids remain if its lists have at most 150 characters |
| StudentDb.StatementTextsFit | msyql文件/Create_Procedure.sql:91-182 | with arguments of declared length every text in a varchar(300) fits, but the score INSERT, which fits exactly when its lists and id take at most 260 characters |
| StudentDb.UpdateIsShorterThanInsert | msyql文件/Create_Procedure.sql:62-74 | the UPDATE text of a printed list is four characters shorter than its INSERT text, and one more for each list that ends in an empty piece |
| Upsert.BranchesWrite | msyql文件/Create_Procedure.sql:68-78 | each branch writes the pairs it reads, or fails and changes nothing, as its length limit and syntax have it |
| Upsert.InsertAccepted | msyql文件/Create_Procedure.sql:71-73 | the INSERT is accepted exactly for valid pieces, no column twice, no empty last piece, within the length limit |
| Upsert.UpdateAccepted | msyql文件/Create_Procedure.sql:68-70 | the UPDATE of a printed list is accepted exactly for valid pieces whose INSERT text would exceed the limit by no more than four characters and the empty last pieces |
| Upsert.BranchesAgree | msyql文件/Create_Procedure.sql:62-74 | with the 200 character limit both branches write the same pairs or both fail, except exactly when valid pieces fit the UPDATE and a column is repeated, a list ends in an empty piece, or the INSERT text exceeds 200 characters |
| Upsert.FirstScoreAgrees | msyql文件/Create_Procedure.sql:109-113 | a first score, with 300 characters, and a later UPDATE of the same request agree except exactly for the listed repetitions and empty pieces, and for INSERT texts of 205 to 300 characters |
| Upsert.FewSubjectsAgree | msyql文件/Create_Procedure.sql:62-74 | with at most five columns the branches differ only over a repeated column or an empty last piece, never over length |
| Upsert.UnpaddedMarksAgree | msyql文件/Create_Procedure.sql:62-74 | nor over length with any of the server's nine columns when marks have at most four characters, as `%d` prints them |
| Requests.ReachableBranchesAgree | msyql文件/Create_Procedure.sql:62-74 | in every state reached from the initial script the branches differ only over a repeated column or an empty last piece |
| Counterexamples.RequestTaken | msyql文件/Create_Procedure.sql:68-73 | what either branch makes of any list of subjects and mark texts, with or without a comma after the names or after the marks |
| Counterexamples.RepeatedColumn | msyql文件/Create_Procedure.sql:68-73 | names `Math,Math` with marks `1,2`: accepted by the UPDATE, refused by the INSERT |
| Counterexamples.CommaAtTheEnd | msyql文件/Create_Procedure.sql:68-73 | name `Math` with marks `5,`: accepted by the UPDATE, refused by the INSERT |
| Counterexamples.PaddedMarksTooLong | msyql文件/Create_Procedure.sql:62-74 | the server's nine subjects with seven marks `00000090` and two `000000090`: the UPDATE has 197 characters and is accepted, the INSERT has 201 and is refused, and as a first score accepted |
| Integrity.StatementKeepsConsistent | msyql文件/Create_Init_table.sql:9-45 | a statement that takes effect keeps unique ids and accounts, references and at-most-one rows exactly when it comes in order: parents inserted first and deleted last, no row inserted twice |
| Effects.IdOfFinds | msyql文件/Create_Procedure.sql:101 | the id selected for an account is 0 exactly when nobody has it, and otherwise the one row with it |
| Effects.InsertedFresh | msyql文件/Create_Procedure.sql:43 | an accepted user gets an id never used and without rows; a refused one changes no row |
| Effects.CreatedFresh | msyql文件/Create_Procedure.sql:147-163 | a new user has a fresh id, no score row and the authority text passed; all other rows stay |
| Effects.CreatedKeepsInv | msyql文件/Create_Procedure.sql:94-107 | creation keeps one authority row per user if and only if it fails or the inserted account is the one looked up |
| Answers.RegisterAnswer | msyql文件/Create_Procedure.sql:39-49 | a registration is accepted exactly when the arguments fit parameters and columns, ids remain and nobody has the account; it returns the positive id of the one new row, which no row had and which holds the arguments cell by cell, or 0 if refused |
| Answers.ImportAnswer | msyql文件/Create_Procedure.sql:141-164 | an import of an existing account returns no error and changes nothing; otherwise it is accepted exactly when the cells fit, ids remain and nobody has the inserted account, whose row has just these cells |
| Answers.ImportNames | msyql文件/Create_Procedure.sql:149 | the value list of an import gives the cells in the order of the columns of its INSERT |
| Answers.FirstScoreNames | msyql文件/Create_Procedure.sql:95 | the value list of a first score gives account, name, password, sex and Ident, in this order, each in quotes |
| Answers.FirstScoreAnswer | msyql文件/Create_Procedure.sql:94-107 | an accepted request for a new account has added one user with the five values passed, and nothing in major and grade |
| Answers.FirstScoreAccepted | msyql文件/Create_Procedure.sql:89-115 | when such a request is accepted, with the lengths written out |
| Answers.LaterScoreAnswer | msyql文件/Create_Procedure.sql:60-79 | when a request for a registered account is accepted, with the lengths written out; it touches no user, authority, id or score of others, and refused nothing |
| Effects.ScoreWrittenKeepsInv | msyql文件/Create_Procedure.sql:60-79 | writing a score keeps the invariant and never meets the unhandled row count |
| Effects.ApplyKeepsInv | msyql文件/Create_Procedure.sql:39-247 | every call keeps the invariant if and only if it carries its account or inserts no user; no call meets the unhandled row count |
| Effects.PurgedRows | msyql文件/Create_Procedure.sql:241-243 | a deletion removes all rows of its users and no others |
| Effects.PurgedTwice | msyql文件/Create_Procedure.sql:241-243 | deletions one after the other are one deletion of both sets |
| Effects.SelectOne | msyql文件/Create_Procedure.sql:204-208 | a selection that fixes the account finds the one id there is |
| Procedures.Database.constructor | msyql文件/Create_Init_table.sql:9-49 | the initial script leaves the administrator with its authority text, and a valid database |
| Answers.InitialRows | msyql文件/Create_Init_table.sql:9-49 | the one user has id 100000, account and name admin, password 123456, rank 3; the subjects are Chinese, Math and English |
| Procedures.AdministratorAuthority | msyql文件/Create_Init_table.sql:49 | the authority text fits its column and splits into the permissions 1 to 30 |
| Scripts.ScriptIsApply | msyql文件/Create_Procedure.sql:39-247 | from any consistent state the statements of a call come in order and all together leave what the call as a whole leaves |
| Scripts.CutOffKeepsConsistent | msyql文件/Create_Procedure.sql:39-247 | a call with any accounts, cut off after any number of its statements, leaves a consistent state |
| Scripts.NeverNullStatement | msyql文件/Create_Procedure.sql:65-79 | from any consistent state no call meets the unhandled row count |
| Scripts.AuthorityNeverComes | msyql文件/Create_Procedure.sql:39-192 | a user without an authority row, as a cut off registration leaves one, never gets one, whatever calls follow, whole or cut off |
| Counterexamples.RegistrationCutOff | msyql文件/Create_Procedure.sql:39-49 | such a user after the first statement of a registration on the initial state |
| Procedures.Database.Execute | msyql文件/Create_Init_table.sql:9-45 | one statement, issued in order, leaves a consistent state, which is appended to the log |
| Procedures.Database.UserRegister | msyql文件/Create_Procedure.sql:39-49 | the new state, error and id are those of the call as a whole; from any consistent state, with exactly the states of its script logged |
| Procedures.Database.AddSingleScoreHaveRegister | msyql文件/Create_Procedure.sql:60-79 | updates the one score row or inserts the first, within 200 characters of text, logs just that statement, and never runs without a text |
| Procedures.Database.AddSingleScoreNotRegister | msyql文件/Create_Procedure.sql:89-115 | creates user, authority and score in this order, logging exactly these statements up to the first that fails |
| Procedures.Database.AddSingleScore | msyql文件/Create_Procedure.sql:125-134 | the new state and error are those of the call as a whole; valid afterwards when the inserted account is the one named; from any consistent state, with exactly the states of its script logged |
| Procedures.Database.AddSingleUserInfo | msyql文件/Create_Procedure.sql:141-164 | an existing account is left alone, a new one is created with its authority; from any consistent state, with exactly the states of its script logged |
| Procedures.Database.UpdateSingleUserInfoByAccount | msyql文件/Create_Procedure.sql:170-192 | updates the user's row and, on the flag, its one authority row; from any consistent state, with exactly the states of its script logged |
| Procedures.Database.DeleteSingleUserInfoByAccount | msyql文件/Create_Procedure.sql:199-216 | removes exactly the user the operator may delete, children first, and returns 1 exactly if there was one; from any consistent state, with exactly the states of its script logged |
| Procedures.Database.DeleteBatchUserInfoByUserId | msyql文件/Create_Procedure.sql:223-247 | removes exactly the users in the range the operator may delete and returns 1 exactly if there were any; from any consistent state, with exactly the states of its script logged |
| Procedures.Database.EmpLoop | msyql文件/Create_Procedure.sql:233-244 | the cursor loop issues exactly the deletions of the fetched users, one by one, children first, and is consistent after each statement |
| Deletions.DeletedExactly | msyql文件/Create_Procedure.sql:227-246 | a user loses all its rows if it was selected and keeps all if not; the result is 1 exactly if anybody was selected and 0 exactly if nothing changed |
| Answers.SingleDeletionAnswer | msyql文件/Create_Procedure.sql:199-216 | a ranked operator's single deletion removes the user with all its rows and nobody else, and returns 1, exactly when the arguments fit and it reaches it: administrators reach teachers and students, teachers students, either itself, students other students under the grant; otherwise nothing changes and it returns 0 |
| Answers.NobodyDeleted | msyql文件/Create_Procedure.sql:199-216 | for an account nobody has nothing changes and 0 is returned |
| Answers.BatchDeletionAnswer | msyql文件/Create_Procedure.sql:223-247 | the batch removes exactly the users in the range whom the operator reaches, with their rows, and returns 1 exactly if there are any; in a batch a student reaches itself too |
| Deletions.BatchTwice | msyql文件/Create_Procedure.sql:223-247 | a second identical batch deletes nobody and returns 0 |
| Deletions.BatchesCompose | msyql文件/Create_Procedure.sql:223-247 | two adjoining ranges deleted in turn are the whole range |
| Deletions.DeletedEachIsPurged | msyql文件/Create_Procedure.sql:199-216 | deleting accounts one by one, in any order, removes exactly the users that may be deleted singly |
| Deletions.BatchIsOneByOne | msyql文件/Create_Procedure.sql:204-244 | a batch leaves the same database as its accounts deleted one by one in any order, if and only if nobody it may delete has an account over 31 characters and the operator is no student without the grant |
| Deletions.UngrantedStudentDeletesNobody | msyql文件/Create_Procedure.sql:204-208 | a student without the grant deletes nobody singly |
| Deletions.UngrantedStudentBatch | msyql文件/Create_Procedure.sql:227 | in a batch such a student removes at most itself |
| Counterexamples.StudentDeletesItself | msyql文件/Create_Procedure.sql:199-247 | after one registration a student without the grant removes itself in a batch, and its single deletion changes nothing |
| Counterexamples.LongAccountStays | msyql文件/Create_Procedure.sql:199-247 | after a registration and a renaming to 32 characters the administrator removes the user in a batch, and the single deletion changes nothing |
| Updates.ChangedCells | msyql文件/Create_Procedure.sql:180 | each column takes the last value assigned to it and the others keep theirs |
| Updates.LastAssignedIsLast | msyql文件/Create_Procedure.sql:180 | the last value assigned to a column is that of an assignment to it with none to it after |
| Updates.UpdateEffect | msyql文件/Create_Procedure.sql:170-192 | an accepted update writes the user's assigned columns and on the flag its authority text, and nothing of anybody else; a refused one writes nothing |
| Answers.RowUpdateAccepted | msyql文件/Create_Procedure.sql:178-183 | an update of a row is accepted exactly when the list is not empty, the cells it gives fit the columns, and no row with another id has the account it gives |
| Answers.UserUpdateAccepted | msyql文件/Create_Procedure.sql:170-192 | the call for an account is accepted exactly when its arguments have the declared lengths and the update of its row is; for an account nobody has it does nothing |
| Answers.ReachableRowsFit | msyql文件/Create_Init_table.sql:9-19 | in every reachable state, with calls cut off, every cell fits its column |
| Answers.AssignedCellsDecide | msyql文件/Create_Procedure.sql:178-183 | there the assigned cells alone decide whether an update fits |
| Answers.ChangeNames | msyql文件/Create_Procedure.sql:180 | the text of an assignment is its column's name and its value |
| Runs.ReachableStates | msyql文件/Create_Procedure.sql:39-247 | after any run from the initial script, with any accounts, ids and accounts are unique, rows belong to users, nobody has two authority or score rows, and no next call meets the unhandled count; every user has exactly one authority row if the calls carry their accounts |
| Runs.InterruptedStates | msyql文件/Create_Procedure.sql:39-247 | all but the last of these hold after any run in which any calls are cut off after any of their statements |
| Runs.RunNeverReissues | msyql文件/Create_Init_table.sql:10-19 | the next id never falls along a run and rises by at most one a call; the columns stay the same |
| Runs.CleanRebirth | msyql文件/Create_Procedure.sql:43-48 | an account created after any run has an id later than any earlier user's, no score row and exactly the authority text passed |
| Runs.CallRemoves | msyql文件/Create_Procedure.sql:204-227 | a call removes the users it is a permitted deletion of, and no others |
| Runs.GoneStaysGone | msyql文件/Create_Init_table.sql:10 | an id that is gone does not come back |
| Runs.RunRemoves | msyql文件/Create_Procedure.sql:204-227 | along any run that does not change its account or rank a user is there until the first permitted deletion of it, and never after |
| Runs.DeletionRespectsRank | msyql文件/Create_Procedure.sql:204-227 | no deletion reaches a higher rank, and the same rank only for the user itself or a student under the grant |
| Runs.AdministratorsLeaveByThemselves | msyql文件/Create_Procedure.sql:204-227 | an administrator whose account and rank no call changes disappears only through a deletion its own account asked for |
| Answers.InitialAdministratorStays | msyql文件/Create_Init_table.sql:48 | id 100000 stays an administrator in every run in which its own account asks for no deletion and no call changes its account or rank |
| Runs.CallRemovesId | msyql文件/Create_Procedure.sql:199-247 | a user's id is gone after a call exactly when the call is a permitted deletion of that user as it then is, updates of account and rank included |
| Runs.RunRemovesId | msyql文件/Create_Procedure.sql:199-247 | along every run an id is gone exactly if some call was a permitted deletion of the user it stood for at that moment |
| Runs.NobodyRemovesUpwards | msyql文件/Create_Procedure.sql:204-227 | in a run whose deletions act for the three ranks, an id that disappears was removed for an operator of no lower rank than the user had at that moment, of the same rank only for itself or for a student under the grant; an administrator's only for its own account |
| LastWriter.PrintedRequestIsCoherent | StudMangeSysServer/StudMangeSysServer/Tools/StringTool.cpp:178-203 | what the server prints for lists the INSERT accepts is a coherent request |
| LastWriter.RegisteredWrites | msyql文件/Create_Procedure.sql:65-78 | for any texts the branch that the score row selects writes its pairs to the one row of the user and no other, or fails and changes nothing |
| LastWriter.UnregisteredWrites | msyql文件/Create_Procedure.sql:94-114 | for any texts a first score for a new account writes the INSERT pairs over zeros in a row of its own; refused, at most the user is created, with no score row |
| LastWriter.RequestWrites | msyql文件/Create_Procedure.sql:125-134 | for any texts an accepted request writes the pairs of the branch taken over the marks so far, or over zeros in a new row; a refused one leaves the marks |
| LastWriter.BystanderKeepsScore | msyql文件/Create_Procedure.sql:39-247 | registrations, other accounts' scores, updates that leave the account with its user, renamings of others included, and deletions of others leave an account's score |
| LastWriter.LastWriterWins | msyql文件/Create_Procedure.sql:65-134 | along any run of score requests for the account, well formed or not, and such calls each subject ends with the mark of the last accepted request that lists it in the text of the branch it took, or 0; no score row before the first accepted one |
| LastWriter.CoherentLastWriter | msyql文件/Create_Procedure.sql:65-134 | when the requests are coherent those marks are the ones of the INSERT lists, whichever branch was taken |
| Requests.RequestAccepted | msyql文件/Create_Procedure.sql:60-134 | from any consistent state a score request is accepted exactly when its arguments fit and, for a new account, the user can be inserted and the INSERT is accepted within 300 characters, or, for a registered one, the branch taken accepts its text within 200 |
| Requests.FittingIsAccepted | msyql文件/Create_Procedure.sql:60-134 | a coherent request with lists of at most 150 characters and a SET list of at most 155 is accepted while ids remain |
| Requests.PrintedRequestFits | StudMangeSysServer/StudMangeSysServer/Tools/StringTool.cpp:178-203 | what the server prints for accepted lists of at most 150 characters is such a request |
| Requests.LastRequestWins | msyql文件/Create_Procedure.sql:60-134 | along a run of such requests and calls that leave the account alone each subject ends with the mark of the last request that lists it, or 0, and a score row exists exactly if there was a request |

## Left out

- Procedures.Database.AddSingleScoreHaveRegister: stated for an id that names a user, as its only caller AddSingleScore sees to; other direct calls are not modelled.
- Procedures.Database.AddSingleScoreNotRegister: stated for an account that names no user, as its only caller AddSingleScore sees to; other direct calls are not modelled.
- Procedures.Database.Execute: stated for statements that come in order, which all statements of the procedures do; what the engine answers to others is not modelled.
- StringTool.CombVecsToSqlUpdateSetStr: texts with NUL characters, which `%s` would cut short.
- StringTool.CombIntsToStr: also stands for the overload for permissions, whose loop is the same.
- Coercion of the pieces to BIGINT in `str_spilt`: the rows are modelled as text, of any length.
- Score marks other than plain decimal literals of a tinyint: expressions and blanks are read as bad statements.
- Scores, authorities and subjects that the server changes by plain SQL outside the procedures (`ALTER TABLE`, `delete from studscore`, `update userAuthority`).
- SQL modes other than strict, collation, multi-byte text, auto-increment after a restart, foreign keys as enforced by the engine (the proofs show no statement would violate them).
- The value of an out parameter after an error: taken as 0.
- Concurrency between clients, sockets, console dialogs, message dispatch and the vendored MySQL client API.
- `ToLowercase`, `ToUppecase` and `SetStringFieldWidth` are not modelled.
- `atoi` beyond the range of int, and `strInsertInfo` values that contain quotes.
