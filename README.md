# Movies by year: a Dafny model of `main.c`

The program reads a CSV file of movies and keeps them in a singly linked
list. It then writes the titles into one file per year, inside a freshly
created directory named `jamiessa.movies.<n>`. The file it reads is chosen
in one of three ways: the largest `movies_*.csv` file in the current
directory, the smallest one, or a name the user types.

The model follows the program's own structure:

- `clib.dfy` (module `CLib`) holds the C library behaviour the program
  relies on, written as functions. A `string` read from a file stands for
  the file's bytes, one character per byte, so lengths count bytes as the
  C functions do:
  - `fgets` with the program's 1024-byte buffer;
  - `strtok` with a `","` delimiter, and the token sequence that repeated
    calls produce;
  - `atoi`, and `%d` formatting (`ShowInt`);
  - the `strncmp` prefix test and `strstr`.
- `records.dfy` (module `Records`) holds `struct movie` as the `Node` class
  and the list as the `MovieList` class. The list has ghost `nodes`,
  `Contents` and `Repr`. `AddMovie` walks `next` to the tail exactly as
  `add_movie` does.
- `parser.dfy` (module `RecordParser`) models `process_file`. Its loop over
  successive `fgets` results is the method `ReadMovies`. Both are specified
  against `ParseFile`, a function from the file text to the movies it holds.
- `writer.dfy` (module `OutputWriter`) models `create_directory_and_files`.
  It is a loop over the linked list. It is specified against `Output`, a
  function from the movies to the resulting directory: a map from year to
  file text and mode. The `fopen(path, "a")` calls are numbered from 0 in
  the order they are made, one per movie, and the calls that fail are a set
  of those numbers.
- `selector.dfy` (module `FileSelector`) models the name filter and the
  largest/smallest selection loops. They run over a listing of
  (name, size, is-regular-file) entries.
- `pipeline.dfy` (module `Pipeline`) models `process_largest_file`,
  `process_smallest_file` and `process_specified_file`. The file system
  they see is a `World` value.

## Behaviour of main.c worth noting

- **Fields.** `strtok` skips runs of commas, so an empty field
  disappears and the fields after it move forward. Tokens after the
  fourth are ignored (`TokensAreNonEmptyFields`, `ParseLineFields`).
- **Long lines.** `fgets` returns a line longer than the buffer in pieces
  of at most 1023 bytes, and each piece is parsed as a line of its own
  (`Fgets`, `DataLines`).
- **Unopenable input file.** `process_file` returns -1, but its caller
  ignores the result, so an empty output directory is still created
  (`UnopenableFileLeavesEmptyDirectory`).
- **Year file cannot be opened.** The `return` ends the whole walk, so
  the movies after the failing one are not written
  (`StopKeepsEarlierLines`, `FailureOnExistingYearFile`).

## Model

| member | source | states |
|---|---|---|
| CLib.Fgets | main.c:92-96 | fgets gives NULL exactly at end of input. Otherwise the line and the remaining input together make up the input. The line is non-empty and shorter than the 1024-byte buffer, and holds a newline only as its last character. It ends at a newline, at the buffer limit or at the end of input. |
| CLib.ConcatLines | main.c:96 | Reading a stream with repeated fgets calls loses no byte and adds none. |
| CLib.LinesOfConcat | main.c:96 | A stream made of full lines is read back as exactly those lines. |
| CLib.Lines | main.c:96 | Every line that successive fgets calls return is non-empty and shorter than the 1024-byte buffer. |
| CLib.CStr | main.c:97 | strtok sees the buffer up to its first NUL. That text is a prefix of the buffer without NUL. When it is shorter than the buffer, a NUL follows it, and it is all of the buffer when the buffer has no NUL. |
| CLib.SkipCommas | main.c:97 | strtok first skips delimiters: what is left is a suffix of the input that does not start with a comma. |
| CLib.SkipCommasDropsCommas | main.c:97 | What strtok skips before a token is made of commas only. |
| CLib.Strtok | main.c:97-100 | A token strtok returns is non-empty and holds no comma, and the text left to scan is strictly shorter than the input. |
| CLib.StrtokNone | main.c:97-100 | strtok returns NULL exactly when the remaining text consists of commas only. |
| CLib.Tokens | main.c:97-100 | Every token is non-empty and holds no comma. |
| CLib.TokensAreStrtokCalls | main.c:97-100 | The token sequence is what successive strtok(NULL, ",") calls return, in order, up to the first NULL. |
| CLib.TokensAreNonEmptyFields | main.c:97-100 | The tokens are exactly the non-empty comma-separated fields, in order: empty fields collapse. |
| CLib.TokensOfJoinFields | main.c:97-100 | Non-empty, comma-free fields joined with commas are tokenized back into exactly those fields. |
| CLib.SkipSpaces | main.c:98 | atoi's white-space skip leaves a suffix of the input that starts with no white space. |
| CLib.SkipSpacesDropsSpaces | main.c:98 | What atoi skips before the number is white space only. |
| CLib.Atoi | main.c:98 | atoi gives a negative value only when a minus sign follows the leading white space. |
| CLib.AtoiSkipsSpaces | main.c:98 | White space in front of any text does not change what atoi reads. |
| CLib.AtoiOfPlus | main.c:98 | A plus sign in front of the digits does not change what atoi reads. |
| CLib.AtoiOfNoNumber | main.c:98 | Text that starts with no white space, sign or digit reads as 0. |
| CLib.DigitRun | main.c:98 | atoi's digits are the longest all-digit prefix: a prefix of the text, all digits, and followed by a non-digit or the end. |
| CLib.AtoiOfNotAvailable | main.c:98 | A year field "N/A" converts to 0 rather than failing. |
| CLib.AtoiOfDigits | main.c:98 | atoi of a digit run followed by a non-digit is the value of the run. |
| CLib.AtoiOfNegatedDigits | main.c:98 | atoi of a minus sign, a digit run and a non-digit is the negated value of the run. |
| CLib.ShowNat | main.c:128 | %d of a non-negative value prints decimal digits only, without a leading zero. |
| CLib.ShowInt | main.c:128 | %d prints a leading minus sign exactly for negative values, and digits everywhere else. |
| CLib.DigitsValueOfShowNat | main.c:128 | The digits %d prints denote the printed value. |
| CLib.AtoiOfShowInt | main.c:128 | atoi reads back the value %d printed, whatever non-digit text follows it. |
| CLib.ShowIntInjective | main.c:128 | Different values print as different text. |
| CLib.ContainsAt | main.c:189 | strstr finds `p` in `s` exactly when `p` occurs at some position of `s`. |
| CLib.StartsWith | main.c:189 | strncmp of `s` and `p` over the length of `p` gives 0 exactly when `s` is at least as long as `p` and agrees with it character by character. |
| CLib.Contains | main.c:189 | strstr finds the empty string in every text, and finds `p` only in a text at least as long as `p`. |
| Records.Node.constructor | main.c:48-56 | create_movie gives a node holding the given title, year and languages, with no successor. |
| Records.MovieList.constructor | main.c:202 | `Movie *head = NULL;` is a valid, empty list. |
| Records.MovieList.AddMovie | main.c:59-70 | add_movie appends at the tail: the movies become the old movies followed by the new one. The old nodes stay, in order. The new node is fresh with `next == NULL`, and it is the only object added to the list. A non-null head is unchanged, and an empty list becomes a one-node list. The list stays a well-formed NULL-terminated chain. |
| RecordParser.DataLines | main.c:94-96 | The data lines are the lines fgets returns after the header line, which is discarded; a file with no line has none. |
| RecordParser.ParseLine | main.c:97-100 | A data line gives a movie exactly when strtok finds at least four tokens in it. |
| RecordParser.ParseLineFields | main.c:97-99 | The title, the year and the languages come from the first, second (through atoi) and third non-empty comma-separated fields. |
| RecordParser.ParseFieldsLine | main.c:97-99 | A line of four plain, non-empty fields parses to its first field, atoi of its second and its third. |
| RecordParser.ParseNotAvailableYear | main.c:98 | A line whose year field is "N/A" gives a movie of year 0. |
| RecordParser.ParseFilePointwise | main.c:94-104 | A file can be read exactly when every data line has four tokens. Then there is one movie per data line, and the i-th movie comes from the i-th data line. |
| RecordParser.ParseFile | main.c:94-104 | A readable file gives one movie per data line. |
| RecordParser.ProcessFile | main.c:85-109 | An unopenable file gives -1 and leaves the list untouched. Otherwise the header line is discarded and one movie is appended per remaining line, in file order. The result is the number of data lines, and the list stays well formed. |
| RecordParser.ReadMovies | main.c:96-104 | The fgets loop appends the movie of every line still unread, in line order, returns the number of those lines, and keeps the list well formed. |
| RecordParser.ParseRenderedLine | main.c:97-100 | A movie written as a CSV line with %d for the year parses back to the same movie. |
| RecordParser.RenderedLineIsFull | main.c:92-96 | Such a line is read by one fgets call: it fits the buffer and ends at its only newline. |
| RecordParser.ParseRenderedFile | main.c:94-104 | A file of a header and N written movies has N data lines and parses back to exactly those movies, in order. |
| OutputWriter.DirNameSuffix | main.c:115 | The directory name is `jamiessa.movies.` followed by digits that atoi reads back as the random number. |
| OutputWriter.DirNamesDistinct | main.c:115 | Different random numbers give different directory names. |
| OutputWriter.FileName | main.c:128 | A year's file name ends in `.txt`, and atoi reads the year back from it. |
| OutputWriter.FileNamesDistinct | main.c:128 | Different years get different file names. |
| OutputWriter.AppendTitle | main.c:128-140 | One pass of the loop appends the title and a newline to the year's file, which exists afterwards with mode 0640. No other file changes. |
| OutputWriter.FirstFailure | main.c:126-134 | The walk stops at the first fopen call that fails: every earlier call succeeds, and the one there fails. With no failing call, it reaches the end of the list. |
| OutputWriter.CreateDirectoryAndFiles | main.c:112-144 | The loop over the linked list produces `Output` of the list's movies: nothing when mkdir fails. Otherwise the directory holds the files written for the movies before the first failing fopen call, and `stopped` records whether a call failed. |
| OutputWriter.WriteAllYears | main.c:125-143 | There is a year file for exactly the years some movie has. |
| OutputWriter.WriteAllText | main.c:125-143 | The file for year Y holds the titles of the movies of year Y, in list order, each followed by a newline, and has mode 0640. |
| OutputWriter.WriteAllContents | main.c:125-143 | Both of the above together: the files are exactly the years present, each holding its titles in order. |
| OutputWriter.NoTitlesOfAbsentYear | main.c:125-143 | A year no movie has gets no titles. |
| OutputWriter.WriteAllGrows | main.c:130-136 | Appending never overwrites: a file written for a prefix of the movies is still there later, and its text is a prefix of the later text. |
| OutputWriter.OneLinePerMovie | main.c:130-136 | Each movie adds exactly one line to its year's file and leaves the other files as they were. |
| OutputWriter.WriteAll | main.c:125-143 | Every file the walk writes holds at least one line and has mode 0640. |
| OutputWriter.Output | main.c:112-144 | Nothing is written exactly when mkdir fails. Otherwise the walk is stopped exactly when one of the calls made for the movies fails. |
| OutputWriter.MkdirFailureWritesNothing | main.c:118-121 | If mkdir fails, no file is written. |
| OutputWriter.StopKeepsEarlierLines | main.c:130-134 | When the walk stops at the k-th movie, call k failed and every earlier call succeeded. The files hold what the first k movies write, and each is a prefix of what an unhindered run writes. |
| OutputWriter.FailureOnExistingYearFile | main.c:130-134 | A failing fopen stops the walk even when the year's file already exists: the movies before it are written and the rest are not. |
| OutputWriter.UnblockedWritesAll | main.c:125-143 | When no call fails, the directory holds the files for the whole list and the walk is not stopped. |
| FileSelector.NameMatchesAt | main.c:189 | The name test holds exactly when the first seven characters are `movies_` and `.csv` occurs at some position. |
| FileSelector.NameMatches | main.c:189 | `.csv` cannot overlap the `movies_` prefix, so a name that passes has at least 11 characters. |
| FileSelector.IsCandidate | main.c:189-190 | A candidate is a regular file, and its name has at least 11 characters. |
| FileSelector.PrefixAndInfixMatch | main.c:189 | Every name made of `movies_`, any text, `.csv` and any further text passes: `.csv` need not be the extension. |
| FileSelector.PrefixRequired | main.c:189 | `movies.csv` and `Movies_sample.csv` fail the test: the underscore is required and the match is case-sensitive. |
| FileSelector.ExtensionRequired | main.c:189 | `movies_sample.txt` fails the test. |
| FileSelector.SelectLargest | main.c:188-197 | Returns nothing exactly when no regular file matches the name test. Otherwise it returns the first candidate whose size is at least that of every candidate. |
| FileSelector.SelectSmallest | main.c:225-234 | Returns nothing exactly when no regular file matches the name test. Otherwise it returns the first candidate whose size is at most that of every candidate. |
| FileSelector.FirstLargestUnique | main.c:191-194 | At most one entry is the first largest candidate, so the listing determines the choice. |
| FileSelector.FirstSmallestUnique | main.c:228-231 | At most one entry is the first smallest candidate. |
| FileSelector.SingleCandidate | main.c:188-197 | With a single candidate, both modes pick it. |
| FileSelector.TieGoesToFirst | main.c:191-194 | Of two candidates of equal size, the later one is chosen in neither mode. |
| FileSelector.TwoFilesExample | main.c:188-234 | For files of 10 and 1000 bytes, largest mode picks the big one and smallest mode the small one. |
| Pipeline.Run | main.c:202-205 | Processing a name gives count -1 exactly when the file cannot be opened. |
| Pipeline.ProcessChosenFile | main.c:202-205 | A fresh list, process_file, then create_directory_and_files give `Run`: the count and the directory written for the file's movies. |
| Pipeline.ProcessLargestFile | main.c:175-209 | Reports an unopenable directory or the absence of a candidate. Otherwise it processes the first largest candidate. |
| Pipeline.ProcessSmallestFile | main.c:212-246 | Reports an unopenable directory or the absence of a candidate. Otherwise it processes the first smallest candidate. |
| Pipeline.ProcessSpecifiedFile | main.c:249-266 | A name that does not exist is reported as not found. Otherwise the file is processed. |
| Pipeline.UnopenableFileLeavesEmptyDirectory | main.c:262-264 | A file that cannot be opened gives count -1. An empty directory is still created when mkdir succeeds. |
| Pipeline.RunWritesTitlesByYear | main.c:262-264 | When no year-file fopen fails, the directory holds one file per year of the movies read. The file for year Y holds their titles of that year, in file order, one per line, with mode 0640. |
| Pipeline.RenderedFileRoundTrip | main.c:262-264 | A file written as a header and one line per movie is processed into exactly those movies' year files, with the movie count. |

## Left out

- The menus and their `scanf` calls (main.c:154-172, 269-290) are not modelled. `process_specified_file` takes the name as a parameter.
- `srand`/`rand` are not modelled. The directory suffix is a parameter below 100000.
- The file system is values, not calls:
  - `opendir`/`readdir`/`stat`/`closedir` become a listing, None when opendir fails;
  - `access` becomes a set of existing names;
  - `fopen` for reading becomes a map from name to text;
  - `mkdir` success is a boolean;
  - the `fopen` calls in append mode that fail are a set of call numbers.
- Modes are the requested modes; the process umask and `chmod` failures are not modelled (a `chmod` failure is only reported).
- The `rating` field and `atof` (main.c:100) are not modelled, because they are floating point. The fourth token must exist, but its value is not kept.
- `printf` and `perror` messages are not modelled; they are logging only.
- `strdup` (main.c:38-43), `malloc`, `free` and `free_movies` (main.c:73-82) are not modelled; they are memory management. Strings are values, so a node owns its own copy, and an allocation failure cannot happen.
- `fclose` is not modelled.
- The `d_name` pointer kept after `closedir` (main.c:193, 230) is a lifetime error. The model keeps the chosen entry's name as a value.
- The `file_name` parameter of `create_directory_and_files` is never used, so the model does not take it.
- `dir_name`/`file_path` buffer lengths are not modelled. `sprintf` into the 256- and 512-byte buffers cannot overflow for these formats.
- NUL characters in file names are not modelled; names are plain strings.
- Text encodings are not modelled: a string holds one character per byte, and multi-byte characters are not decoded.
- CLib.Atoi: the result is the exact integer value. The C `int` overflow of out-of-range digit strings, which is undefined behaviour, is not modelled.
- RecordParser.ProcessFile: `movie_count` is an unbounded integer. 32-bit overflow after 2^31 lines is not modelled.
- RecordParser.ProcessFile, RecordParser.ReadMovies: require every data line to have at least four tokens. With fewer, `main.c` passes a NULL token to `atoi`, `strdup` or `atof`, which is undefined behaviour.
- Pipeline.ProcessLargestFile, Pipeline.ProcessSmallestFile, Pipeline.ProcessSpecifiedFile: require the same of the file they end up reading.
