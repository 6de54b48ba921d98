# Member import: a verified model

`scripts/prepare-member-import.py` merges two spreadsheet exports into one JSON
document for a one-time database import. The two exports are a member roster
and an account-number roster. This project models the part of that script that
decides what ends up in the document:

- the cell normalizers `safe_str`, `parse_skills` and `normalize_academic_level`;
- the exclusion of the two test accounts;
- the account join map, built row by row, where the last row wins;
- the member/collaborator decision;
- the `lastName` and `displayName` joins and the fallback to the address's
  local part;
- the pruned `priorities` map;
- the summary counts of the output document.

The modules:

- `Wrappers`: the `Option` type. A spreadsheet cell is an `Option<string>`,
  and `None` is a blank cell (what `pd.isna` reports) or a missing column
  (what `row.get` returns).
- `PyStr`: the Python string built-ins the script relies on, as functions on
  `seq<char>`, each defined directly or characterized by a contract or a
  round-trip lemma:
  - `str.isspace`, `str.strip` and `str.lower`;
  - the substring test `in`;
  - `str.replace` on one character;
  - `str.split` and `str.join` on one character;
  - `str(int)`.
- `Normalizers`: `safe_str`, `parse_skills` and `normalize_academic_level`.
- `MemberImport`: the body of `main`:
  - the filter;
  - the account-map loop, a method proved equal to a fold;
  - the classification, names and priorities;
  - the per-row record;
  - the records loop `BuildRecords`;
  - `PrepareImport`, the whole of `main`, which builds the output document.

## Model

| member | source | states |
|---|---|---|
| `PyStr.IsSpace` | scripts/prepare-member-import.py:40 | `c.isspace()`, the set argument-less `strip` removes: space, U+0009 to U+000D, U+001C to U+001F, U+0085, U+00A0, U+1680, U+2000 to U+200A, U+2028, U+2029, U+202F, U+205F and U+3000. |
| `PyStr.Strip` | scripts/prepare-member-import.py:40 | The result has no whitespace at either end. It is the slice of the input between the leading and trailing whitespace runs, and it is empty exactly when the input is all whitespace. |
| `PyStr.StripIdempotent` | scripts/prepare-member-import.py:40 | Stripping a stripped text changes nothing. |
| `PyStr.StripSpaceCons` | scripts/prepare-member-import.py:23 | A leading whitespace character, such as the space after a separator, is cut off by `strip`. |
| `PyStr.LowerChar` | scripts/prepare-member-import.py:28 | `c.lower()` per character: ASCII capitals and the Latin-1 capitals U+00C0 to U+00DE other than U+00D7 move up by 32 code points; every other character is unchanged. |
| `PyStr.Lower` | scripts/prepare-member-import.py:64-65 | `s.lower()`: the text of the same length whose every character is the lower-case form of the character at that position. |
| `PyStr.LowerStrip` | scripts/prepare-member-import.py:64 | Lower-casing and stripping commute, so strip-then-lower (the normalized address) equals lower-then-strip (the academic level). |
| `PyStr.Contains` | scripts/prepare-member-import.py:29-34 | `needle in text`: some position of `text` starts a copy of `needle`. `ContainsStrip` and `ContainsInSlice` build on it. |
| `PyStr.ContainsStrip` | scripts/prepare-member-import.py:28-34 | A whitespace-free word occurs in the stripped text exactly when it occurs in the unstripped text. |
| `PyStr.ReplaceChar` | scripts/prepare-member-import.py:23 | `s.replace(a, b)` for one character: the same length, no `a` left when `a != b`, and every other character taken from the input. |
| `PyStr.Split` | scripts/prepare-member-import.py:23 | `s.split(d)`: always at least one piece, and no piece contains the separator. `JoinSplit` and `SplitJoin` make it the inverse of `Join`. |
| `PyStr.Join` | scripts/prepare-member-import.py:84-85 | `d.join(parts)`: no text for no parts, the part itself for one, and the parts with `d` between consecutive ones otherwise. |
| `PyStr.SplitJoin` | scripts/prepare-member-import.py:23 | Splitting the join of separator-free parts on the separator gives back the parts. |
| `PyStr.JoinSplit` | scripts/prepare-member-import.py:23 | Joining the split pieces with the separator gives back the text. |
| `PyStr.IntToDecimal` | scripts/prepare-member-import.py:74 | `str(n)`: a non-empty text that starts with `-` exactly when `n` is negative and is otherwise all digits, with no leading zero except in `0`; `DecimalRoundTrip` reads it back to `n`. |
| `PyStr.DecimalRoundTrip` | scripts/prepare-member-import.py:74 | `str(int)` is injective: reading the decimal text back gives the number, including for negative numbers. |
| `Normalizers.SafeStr` | scripts/prepare-member-import.py:37-40 | A blank cell gives absent. Otherwise the result is absent exactly when the text is all whitespace, and it is the non-empty trimmed text found right after the leading whitespace. |
| `Normalizers.SafeStrKeepsTrimmed` | scripts/prepare-member-import.py:37-40 | Text that is already trimmed and non-empty passes through unchanged. |
| `Normalizers.SafeStrIdempotent` | scripts/prepare-member-import.py:37-40 | Applying `safe_str` to its own result changes nothing. |
| `Normalizers.KeepTrimmed` | scripts/prepare-member-import.py:23 | The list comprehension `[s.strip() for s in pieces if s.strip()]`: at most as many skills as pieces, each non-empty and without whitespace at either end. |
| `Normalizers.ParseSkills` | scripts/prepare-member-import.py:20-23 | A blank cell gives `[]`. Every token is non-empty, has no whitespace at either end, and contains neither `,` nor `;`. |
| `Normalizers.ParseSkillsOfPieces` | scripts/prepare-member-import.py:20-23 | For text made of separator-free pieces with a `,` or a `;` in each gap, the two freely mixed, the result is the trimmed non-empty pieces in order. |
| `Normalizers.ParseSkillsOfJoined` | scripts/prepare-member-import.py:20-23 | Trimmed, non-empty, separator-free skills with a `,` or a `;` in each gap, the two freely mixed, parse back to the same list, with order and duplicates kept. |
| `Normalizers.ParseSkillsOfEmpty` | scripts/prepare-member-import.py:20-23 | An empty (not blank) cell gives `[]`. |
| `Normalizers.ParseSkillsMixed` | scripts/prepare-member-import.py:20-23 | Three skills written as `a; b, , c` (both separators, spaces after them and an empty entry) give `[a, b, c]`. |
| `Normalizers.ParseSkillsMixedExample` | scripts/prepare-member-import.py:20-23 | `"Python; SQL, , R"` gives `["Python", "SQL", "R"]`. |
| `Normalizers.LevelBucket` | scripts/prepare-member-import.py:29-35 | The if-chain: `licenciatura` when that word occurs; otherwise `posgrado` for `posgrado`, `maestr` or `doctor`; otherwise `curso` for `curso` or `actualización`; otherwise absent. |
| `Normalizers.NormalizeAcademicLevel` | scripts/prepare-member-import.py:25-35 | The result is absent, `licenciatura`, `posgrado` or `curso`. A blank cell gives absent. A text whose lower-cased form contains `licenciatura` gives `licenciatura`, whatever else it contains. |
| `Normalizers.AcademicLevelByWords` | scripts/prepare-member-import.py:28-35 | The bucket depends only on which words occur in the lower-cased text; the strip before the tests makes no difference. |
| `Normalizers.AcademicLevelIgnoresCase` | scripts/prepare-member-import.py:28 | Lower-casing the cell first does not change the bucket. |
| `Normalizers.AcademicLevelIgnoresPadding` | scripts/prepare-member-import.py:28 | Surrounding whitespace does not change the bucket. |
| `Normalizers.AcademicLevelLicenciaturaExample` | scripts/prepare-member-import.py:28-30 | A cell that starts with `Licenciatura`, capital letter included, gives `licenciatura` whatever follows, for example `Licenciatura en Ciencia de Datos`. |
| `Normalizers.AcademicLevelMaestriaExample` | scripts/prepare-member-import.py:31-32 | `Maestría` gives `posgrado`. |
| `Normalizers.AcademicLevelBlank` | scripts/prepare-member-import.py:28-35 | A cell that is empty or holds only whitespace gives absent. |
| `MemberImport.ExcludedEmails` | scripts/prepare-member-import.py:18 | `EXCLUDED_EMAILS`: the two test addresses `prueba@secid.mx` and `prueba_2@secid.mx`. |
| `MemberImport.NormEmail` | scripts/prepare-member-import.py:64-65 | The `email_norm` column: the address stripped, then lower-cased. `LowerStrip` shows the order of the two makes no difference. |
| `MemberImport.ExcludeTestAccountsCounts` | scripts/prepare-member-import.py:64-67 | Each surviving row occurs in the result as many times as in the roster, so repeated rows are kept, and an excluded row does not occur at all. |
| `MemberImport.ExcludeTestAccounts` | scripts/prepare-member-import.py:64-67 | The surviving rows are a subsequence of the roster in original order. No surviving row has a normalized address in the exclusion set, and every roster row whose normalized address is outside the set survives. |
| `MemberImport.AccountMapOf` | scripts/prepare-member-import.py:69-74 | The map after reading the account rows in order: a numbered row sets its normalized address to the number's decimal text, overwriting; a blank one changes nothing. `BuildAccountMap` is the loop proved equal to it. |
| `MemberImport.AccountMapKeySource` | scripts/prepare-member-import.py:69-74 | Every key of the map is the normalized address of some row that carries a number. |
| `MemberImport.AccountMapKeyPresent` | scripts/prepare-member-import.py:69-74 | Every row that carries a number leaves a key for its normalized address, whatever rows follow it. |
| `MemberImport.AccountMapKeys` | scripts/prepare-member-import.py:69-74 | An address is a key of the map exactly when some account row with that normalized address carries a number. |
| `MemberImport.AccountMapLastWins` | scripts/prepare-member-import.py:69-74 | The entry for an address is the decimal text of the number on the last row with that address that carries a number. |
| `MemberImport.BlankAccountAddsNothing` | scripts/prepare-member-import.py:73 | A row with a blank number leaves the map unchanged. |
| `MemberImport.BuildAccountMap` | scripts/prepare-member-import.py:69-74 | The loop's map equals the fold over all rows, and its keys are exactly the normalized addresses of numbered rows. |
| `MemberImport.Lookup` | scripts/prepare-member-import.py:110 | `account_map.get(key)`: the entry when the key is present, absent otherwise. |
| `MemberImport.RegistrationWords` | scripts/prepare-member-import.py:88-90 | Looking for `miembro` or `egresado` in the lower-cased, trimmed registration type (the empty text when blank) gives the same answer as looking in the lower-cased cell itself. |
| `MemberImport.Classify` | scripts/prepare-member-import.py:87-99 | The four fields are always one of the two tuples: (member, active, member, approved) or (collaborator, collaborator, collaborator, none). The role is `member` exactly when the membership cell is filled in, or the lower-cased registration type contains `miembro` or `egresado`. |
| `MemberImport.Present` | scripts/prepare-member-import.py:84-85 | `filter(None, parts)`: the present, non-empty texts in their original order; every one is non-empty. |
| `MemberImport.JoinPresent` | scripts/prepare-member-import.py:84-85 | `" ".join(filter(None, parts))`. |
| `MemberImport.PresentKeeps` | scripts/prepare-member-import.py:84-85 | `filter(None, ...)` keeps a text exactly when some part holds it and it is not empty. |
| `MemberImport.NameJoinCases` | scripts/prepare-member-import.py:84-85 | Joining two trimmed cells gives both with one space between them, the present one alone, or the empty text exactly when both are blank. |
| `MemberImport.LocalPart` | scripts/prepare-member-import.py:103 | The result is the prefix of the address up to the first `@`, or the whole address when it has none. |
| `MemberImport.DisplayName` | scripts/prepare-member-import.py:85-103 | The space-join of first name and paternal surname, or the address's local part when that join is empty. |
| `MemberImport.DisplayNameCases` | scripts/prepare-member-import.py:85-103 | When the first name and the paternal surname are both blank, the display name is the local part. Otherwise it is their space-join, which is not empty. |
| `MemberImport.DisplayNameOfAddress` | scripts/prepare-member-import.py:103 | A row with no name and address `local@domain` gets `local` as its display name. |
| `MemberImport.RawPriorities` | scripts/prepare-member-import.py:150-158 | The unpruned map has exactly the seven initiative keys, and every present rating is trimmed and non-empty. |
| `MemberImport.InitiativeColumns` | scripts/prepare-member-import.py:151-157 | The seven output keys, each with the initiative label of its rating column: `bolsaTrabajo`, `hackatones`, `cursosEspecializados`, `seminarios`, `asesorias`, `mentoria` and `newsletter`. |
| `MemberImport.Rating` | scripts/prepare-member-import.py:151-157 | `row.get(column)` for one initiative's rating column: the cell text, or a blank cell when the row has none. |
| `MemberImport.Prune` | scripts/prepare-member-import.py:164 | Keeps exactly the keys whose value is present, with their values unchanged. |
| `MemberImport.PruneIdempotent` | scripts/prepare-member-import.py:164 | Pruning twice is pruning once. |
| `MemberImport.PrunedPriorities` | scripts/prepare-member-import.py:150-164 | Keys come only from the seven initiatives and none maps to absent. An initiative is kept exactly when its rating cell holds more than whitespace, and then it holds the trimmed rating. |
| `MemberImport.SeminariosOnlyExample` | scripts/prepare-member-import.py:150-164 | A row that rates only the seminars, with a rating that is not all whitespace, gets a priorities map whose only key is `seminarios`. |
| `MemberImport.BuildRecord` | scripts/prepare-member-import.py:101-162 | The record dictionary before its priorities are pruned: stripped address, display and last names, classification, account number looked up by the lower-cased address, academic level, campus, skills, unpruned priorities and comments. |
| `MemberImport.ImportRecord` | scripts/prepare-member-import.py:78-164 | The record's four classification fields are consistent. Its address lower-cases to the row's normalized address. `numeroCuenta` is present exactly when the map has that address, and then holds the map's value. Its priorities hold only present ratings of the seven initiatives. |
| `MemberImport.AssembleRecord` | scripts/prepare-member-import.py:101-164 | Building the record dictionary and then reassigning its pruned priorities gives the row's `ImportRecord`. |
| `MemberImport.ImportRecords` | scripts/prepare-member-import.py:76-165 | The records list: one import record per row, in order; as many records as rows. |
| `MemberImport.ImportRecordsAt` | scripts/prepare-member-import.py:76-165 | The record at each position of the records list is the import record of the row at that position. |
| `MemberImport.BuildRecords` | scripts/prepare-member-import.py:76-165 | The records loop yields the import records of the surviving rows, one per row, in order. |
| `MemberImport.ImportRecordsFacts` | scripts/prepare-member-import.py:64-171 | For rows that passed the exclusion filter: no record's address lower-cases to an excluded one, every classification is consistent, and the member and collaborator counts add up to the number of records. |
| `MemberImport.CountRole` | scripts/prepare-member-import.py:170-171 | A role count never exceeds the number of records. |
| `MemberImport.CountRoleOccurrences` | scripts/prepare-member-import.py:170-171 | A role count is the number of times the role occurs among the records' roles, in any order. |
| `MemberImport.RoleCountsPartition` | scripts/prepare-member-import.py:169-171 | When every role is member or collaborator, the two counts add up to the number of records. |
| `MemberImport.PrepareImport` | scripts/prepare-member-import.py:64-174 | The members are the import records of the rows that survive the filter, in roster order, each built against the account map of all account rows. No record's address lower-cases to an excluded one, and every record's classification is consistent. `totalMembers == memberCount + collaboratorCount == len(members)`, and `excludedEmails` is the exclusion set. |

## Left out

- Reading the two spreadsheets, writing `tmp/members-import.json` and the
  console summary (lines 61-62, 176-183). The rows arrive as parameters and
  the document is the method's result. The "with account numbers" count
  exists only in the console output, so it is not modelled.
- `normalize_generation` (lines 42-48) and the `generation` field. They depend
  on Python float parsing and float-to-int truncation.
- `to_iso` (lines 50-58), `birthDate` and `registeredAt`. They delegate to
  `datetime.isoformat` and pandas timestamp parsing.
- `generatedAt` (line 168). It is the wall-clock time of the run.
- The other `safe_str` columns (lines 116-126, 128-138 and 141-149). Each is
  one more `safe_str` application of a cell, and `campus` and `comments`
  stand for them. The columns in between are not `safe_str` columns:
  `generation` (line 115) and the two dates (lines 139-140) are covered
  above, and `skills` (line 127) is modelled.
- Column lookup by header. A missing `Dirección de correo electrónico` or a
  missing name column raises `KeyError` in the script. Here every row has the
  email and name fields, and an optional column that is missing is a `None`
  cell.
- A blank email cell. The script fails on it at line 78, while the normalized
  column at lines 64-65 holds NaN. Here the address is always a string.
- `NormEmail`, `Strip`, `Lower`, `LowerChar`, `IsSpace`: `str.isspace` is modelled exactly,
  but `str.lower` only for ASCII and Latin-1 letters. Every other character is
  left unchanged, so case folding beyond Latin-1 (Greek, Cyrillic, the dotted
  capital I) is not captured. The one accented keyword the script tests
  (`ó` in `actualización`) lies inside Latin-1.
- The account-number cell: pandas reads it as a float, and `int(nc)`
  truncates it. Here the cell is an optional integer, so the truncation (and
  a non-numeric cell, which makes `int` fail) is not modelled.
- Non-text cells: `str(raw)` of a number or a date in a text column is not
  modelled; every present cell is already text.
- `excludedEmails` is written as `list(EXCLUDED_EMAILS)`, whose order depends
  on Python's set iteration. Here it is the set itself.
- The priority ratings of a row are a map from initiative label to cell text;
  a blank rating cell has no entry.
