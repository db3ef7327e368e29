# normalmap command-line driver, in Dafny

The `normalmap` tool turns a heightmap image into a normal map. Its
command-line driver, `src/main.c`, does four things:
- it checks that it got an input and an output file name;
- it loads the input image;
- it calls the conversion engine `normalmap()`;
- it saves the result with the PNG, BMP or TGA writer. The writer is chosen
  by the output file's extension, compared without regard to case.

This project models that driver:

- `CStrings` models the C library string functions the driver relies on.
  - `CString` is a string without NUL.
  - `LastIndexOf` is `strrchr` searching for a character other than NUL.
  - `Lower` is `tolower` in the C locale.
  - `StrCmpI` is `strcmpi`. It is proved to return 0 exactly when the two
    strings are equal ignoring case.
- `FileNames.FilenameExt` is `get_filename_ext`. It is characterised
  completely:
  - a name without `.` has no extension;
  - a name `stem.tail`, where `tail` has no `.`, has extension `tail` when
    `stem` is not empty and no extension when it is empty;
  - every non-empty extension comes from such a split.
- `Driver.Run` is `main` as a pure function. Its inputs are the argument
  vector and the outcomes of the foreign calls: whether the load succeeded,
  the engine's `int32_t` result code, and whether the writer succeeded. It
  returns the events of the run and the exit status. Events are the calls the
  run makes (`Load`, `Convert`, `Write`) and the diagnostics it prints on
  stderr. The status is the value passed to `exit`, or 0 when `main` returns
  normally.

## Model

| member | source | states |
|---|---|---|
| `CStrings.Lower` | src/main.c:62-70 | the lowered character is never an upper-case ASCII letter; it differs from the input only for 'A'..'Z', by 32; NUL stays NUL |
| `CStrings.StrCmpI` | src/main.c:62-70 | the comparison is 0 exactly when the strings have equal length and agree character by character after lowering |
| `CStrings.LastIndexOf` | src/main.c:23 | for a C string and a character other than NUL, the result is missing exactly when the character does not occur; otherwise it is an index holding the character, with no later occurrence |
| `FileNames.FilenameExt` | src/main.c:22-26 | the extension contains no '.' and is a suffix of the name; when it is not empty, a '.' precedes it and that '.' is not the first character |
| `FileNames.NoDotNoExt` | src/main.c:23-24 | a name without '.' has the empty extension |
| `FileNames.LeadingDotNoExt` | src/main.c:24 | a name whose only '.' is its first character (".png") has the empty extension |
| `FileNames.SplitExt` | src/main.c:23-25 | for a non-empty stem and a tail without '.', the extension of stem + "." + tail is exactly tail |
| `FileNames.ExtSplits` | src/main.c:24-25 | a non-empty extension is preceded by '.' and a non-empty stem, and the name is that stem + "." + the extension |
| `FileNames.TrailingDotNoExt` | src/main.c:25 | a name ending in '.' ("name.") has the empty extension |
| `FileNames.MultipleDotsExample` | src/main.c:23-25 | only the last '.' counts: "a.b.c" has extension "c" |
| `FileNames.DirectoryDotExample` | src/main.c:23-25 | path separators are not special: "dir.x/file" has extension "x/file" |
| `FileNames.HiddenFileExample` | src/main.c:24 | ".png" has the empty extension |
| `Driver.FormatExt` | src/main.c:62-72 | each writer's selecting extension has three characters and no '.' |
| `Driver.SelectWriter` | src/main.c:62-80 | a selected writer's extension equals the output extension ignoring case; no writer is selected only when no writer's extension matches |
| `Driver.FormatExtsDistinct` | src/main.c:62-72 | no two of "png", "bmp", "tga" are equal ignoring case, so at most one branch can match and the order of the tests never changes the choice |
| `Driver.SelectWriterExact` | src/main.c:62-80 | the dispatch selects a format if and only if the extension equals that format's extension ignoring case |
| `Driver.SelectWriterIgnoresCase` | src/main.c:62-72 | extensions equal ignoring case select the same writer |
| `Driver.SelectWriterExamples` | src/main.c:62-80 | "PNG" selects PNG and "Tga" selects TGA; "hdr" (a commented-out branch) and "" select none |
| `Driver.Run` | src/main.c:29-84 | the status is 0, -1 or -2; fewer than 3 arguments give -1 with no call made; -2 exactly when the load fails, and then neither engine nor writer runs; the engine runs exactly when the load succeeds; the first event is loading argv[1]; -1 otherwise exactly when no writer matches; the only writer called is the selected one, at most once, on argv[2]; status 0 exactly when a writer was called |
| `Driver.RunCalls` | src/main.c:30-81 | the calls of a run, in order, are: none with too few arguments; the load alone when it fails; otherwise load, engine and the selected writer, if any |
| `Driver.FailuresOnlyReported` | src/main.c:57-73 | runs that differ only in the engine's code or the writer's success make the same calls in the same order and exit with the same status |
| `Driver.ConversionFailureReported` | src/main.c:57-59 | the conversion failure is reported exactly when the engine ran and returned non-zero, and it carries that code |
| `Driver.DiagnosticsReported` | src/main.c:30-42 | the usage message appears exactly with fewer than 3 arguments; the load failure, naming argv[1], exactly when the load fails; the unknown-format message, naming the output extension, exactly when no writer matches (src/main.c:78-80) |
| `Driver.WriteFailureReported` | src/main.c:63-73 | a write failure is reported exactly for the writer that was called, and only when it failed |
| `Driver.ConvertBeforeWrite` | src/main.c:57-73 | the engine call comes before the writer call |
| `Driver.ExtraArgumentsIgnored` | src/main.c:30-36 | arguments after the output file name do not change the run |

## Left out

- The conversion engine `normalmap()` (src/main.c:57) is declared in `normalmap.h`, which is not part of this model. Only its `int32_t` result is modelled, as an input.
- `stbi_load`, `stbi_failure_reason`, the three `stbi_write_*` writers and `stbi_image_free` are foreign library calls. They become the inputs `loaded` and `written`, or the events `Load` and `Write`. Image dimensions and pixel data are not modelled.
- The `NormalmapVals` configuration (src/main.c:46-52) is constant input to the engine and is not modelled. It selects no filter, no wrapping, the red channel as height, a scale of `2.0f` and 8-bit unsigned dudv.
- `malloc` and `free` of the output buffer (src/main.c:43, :83) are not modelled. Neither are the unchecked `malloc` result and a possible overflow of `x * y * 4`.
- Diagnostics contain only their data, not their text. `LoadFailed` omits the loader's failure reason. `Usage` omits the program name `argv[0]`, which is a null pointer when argc is 0.
- The status is the value given to `exit`. The process status the operating system reports for `exit(-1)`, 255 on POSIX, is not modelled.
- The compiler-specific preprocessor branches (src/main.c:6-10, :16-20) have no behaviour of their own.
- `CStrings.StrCmpI` models `strcmpi` under ASCII `tolower`. Only the test `== 0` is used by the driver. The exact non-zero value a given C library returns is not promised.
- `CString` is a sequence of Unicode characters, while C file names are byte strings. A name that is not valid text cannot be expressed. No decision of the driver depends on this: '.' and the ASCII letters never occur inside a UTF-8 multibyte sequence.
- `CStrings.LastIndexOf` does not model `strrchr` searching for NUL, which finds the terminator. The driver only searches for '.'.
- `Driver.SelectWriter` names the writer but does not model the writer run on it: PNG's stride argument 0 and the channel count 4 are not modelled.
