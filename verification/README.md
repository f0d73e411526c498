# newlibreoffice: a verified model of the template launcher's decisions

`newlibreoffice.py` creates a new LibreOffice document by copying a template
from the user's templates directory into the current directory and, unless
told not to, opening LibreOffice on the copy. Between its I/O calls it makes
three decisions, and this project models and proves them:

- **Template selection** (`for ... else` over the directory listing): the
  first entry whose name contains the document-type keyword (`writer`, `calc`
  or `impress`) is the template; if none does, the script exits with status 2.
- **Destination name**: with no name given, the copy is named like the
  template; with a name given, the template's extension (as `os.path.splitext`
  computes it) is appended unless the lower-cased name already ends with that
  extension. Only the name is lower-cased, never the extension.
- **Launch decision**: unless `-d/--do-not-open` is given, LibreOffice is
  started with the argument vector `['libreoffice', '--' + type, destination_name]`.

Modules:

- `Strings` (`strings.dfy`): Python's `sub in s` (`Contains`), `str.endswith`
  (`EndsWith`) and `str.lower` (`Lower`, ASCII case mapping).
- `PosixPath` (`posixpath.dfy`): `os.path.splitext` on POSIX, following the
  standard library's algorithm: find the last `/` and the last `.`; the
  extension starts at that dot if it follows the last `/` and some character
  other than a dot stands between them.
- `NewLibreOffice` (`newlibreoffice.dfy`): the parsed command line (`Args`),
  the search (`SelectTemplate`, a method with a loop), the destination name
  and the launch command (functions), and a whole run (`Run`) returning an
  `Outcome`: `Exit(1)`, `Exit(2)`, or `Created(...)` (exit status 0) naming
  the template directory, the template, the copy and the optional argv.

Inputs that the script obtains by I/O are parameters of `Run`: whether the
`xdg-user-dir TEMPLATES` query succeeded (`xdgAvailable`), the template
directory, and the directory listing in the order the filesystem returns it.

`str.lower` is applied only to the supplied name, so the comparison at
newlibreoffice.py:84 ignores case only when the template's extension is lower
case. What holds for every template and name is that the lower-cased
destination ends with the lower-cased extension (`DestinationKeepsExtension`).
When the extension holds an upper-case letter, the lower-cased name can never
end with it, so the extension is always appended and the destination ends
with it exactly (`UpperCaseExtensionAlwaysAppended`); a template named
`Letter.ODT` with the name `Report.ODT` therefore gives `Report.ODT.ODT`
(`UpperCaseExtensionAppendedTwice`). When the extension is lower case, a name
that ends with it in another case is kept as it is: with `writer_blank.odt`
and the name `Report.ODT` the destination is `Report.ODT`, which does not end
with `.odt` exactly (`WriterNamedWithUpperCaseExtensionExample`).

## Model

| member | source | states |
|---|---|---|
| NewLibreOffice.SelectTemplate | newlibreoffice.py:70-76 | Returns None exactly when no listing entry contains the keyword (the `else` branch); otherwise returns the entry at some index that contains the keyword and before which no entry contains it: the first match, an element of the listing. |
| NewLibreOffice.FirstMatchUnique | newlibreoffice.py:70-72 | There is at most one first-matching index, so the selected template is determined by the listing order. |
| NewLibreOffice.Run | newlibreoffice.py:69-97 | A failed `xdg-user-dir` query ends in exit status 1; otherwise no matching entry ends in exit status 2 with nothing created; a copy is produced exactly when the query succeeded and some entry matches, and then it is from the given template directory, of the first match, under `DestinationName`, with `LaunchCommand` on that same destination name. |
| NewLibreOffice.ExampleWriterDefaultName | newlibreoffice.py:7-10 | `writer` with no name over a listing holding only `writer_blank.odt` copies it as `writer_blank.odt` and launches `libreoffice --writer writer_blank.odt`. |
| NewLibreOffice.Extension | newlibreoffice.py:83 | The extension taken from the template name (the second component of `SplitExt`) is a suffix of that name, and is empty or a `.` followed by no further `.`. |
| NewLibreOffice.DestinationName | newlibreoffice.py:78-85 | With no name the destination is the template's name; with a name, the name is kept unchanged as a prefix of the destination. |
| NewLibreOffice.DestinationNameGiven | newlibreoffice.py:81-85 | With a name, the destination is the name itself when the lower-cased name ends with the extension, and exactly the name followed by the extension otherwise. |
| NewLibreOffice.DestinationKeepsExtension | newlibreoffice.py:82-85 | With a name, the lower-cased destination ends with the lower-cased template extension. |
| NewLibreOffice.NoExtensionKeepsName | newlibreoffice.py:83-85 | A template without an extension leaves the given name unchanged. |
| NewLibreOffice.DestinationNameIdempotent | newlibreoffice.py:83-85 | When the template's extension is lower case, deriving the name again from a derived name changes nothing. |
| NewLibreOffice.UpperCaseExtensionAlwaysAppended | newlibreoffice.py:84-85 | When lower-casing changes the template's extension, every given name gets the extension appended, so the destination is exactly the name followed by the extension. |
| NewLibreOffice.UpperCaseExtensionAppended | newlibreoffice.py:84-85 | With template `Letter.ODT`, the name `Report` becomes `Report.ODT`. |
| NewLibreOffice.UpperCaseExtensionAppendedTwice | newlibreoffice.py:84-85 | With template `Letter.ODT`, the name `Report.ODT` becomes `Report.ODT.ODT`, because only the name is lower-cased before the comparison. |
| NewLibreOffice.CalcNamedExample | newlibreoffice.py:12-15 | `calc "My fancy spreadsheet"` with template `New calc document.ods` names the copy `My fancy spreadsheet.ods`. |
| NewLibreOffice.WriterNamedExample | newlibreoffice.py:81-85 | With template `writer_blank.odt`, the name `Report` becomes `Report.odt`. |
| NewLibreOffice.WriterNamedWithExtensionExample | newlibreoffice.py:84-85 | With template `writer_blank.odt`, the name `Report.odt` stays `Report.odt`, not `Report.odt.odt`. |
| NewLibreOffice.WriterNamedWithUpperCaseExtensionExample | newlibreoffice.py:84-85 | With template `writer_blank.odt`, the name `Report.ODT` stays `Report.ODT`, and that destination does not end with the extension `.odt` as written. |
| NewLibreOffice.LaunchCommand | newlibreoffice.py:95-97 | An argv is produced exactly when `-d/--do-not-open` is not set, and it is exactly `libreoffice`, `--` followed by the type keyword, and the bare destination name. |
| NewLibreOffice.LaunchFlagDeterminesType | newlibreoffice.py:97 | Two launches for the same destination with equal argv were requested for the same document type. |
| PosixPath.RFind | newlibreoffice.py:83 | The last index of a character in a string, or -1: that index holds the character and no later index does. |
| PosixPath.SplitExt | newlibreoffice.py:83 | Root followed by extension rebuilds the name; the extension contains no `/`, and is empty or a `.` followed by no further `.`. |
| PosixPath.SplitExtCharacterized | newlibreoffice.py:83 | The extension is non-empty exactly when the name has an extension start (a last dot after the last `/`, with a non-dot before it in the final component), and then the split is made at that dot. |
| PosixPath.SplitExtStemAndExtension | newlibreoffice.py:83 | A final component `stem` + `.ext`, where the stem does not start with a dot and the extension has no further dot, splits into the stem and `.ext`. |
| Strings.Contains | newlibreoffice.py:71 | `sub in s` holds exactly when `sub` occurs in `s` at some start position. |
| Strings.Lower | newlibreoffice.py:84 | `str.lower` keeps the length, maps each ASCII letter A-Z to its lower-case partner (32 code points up), keeps every other character, and leaves no ASCII upper-case letter. |
| Strings.LowerAppend | newlibreoffice.py:84 | Lower-casing distributes over concatenation. |
| Strings.SuffixOfLowerIsLower | newlibreoffice.py:84 | Whatever a lower-cased string ends with is itself unchanged by lower-casing. |
| Strings.LowerChangesUpperCase | newlibreoffice.py:84 | A string holding an ASCII upper-case letter is changed by lower-casing. |
| Strings.EndsWith | newlibreoffice.py:84 | `s.endswith(suffix)` holds exactly when the suffix is no longer than `s` and agrees with the last characters of `s` position by position; it holds for the empty suffix. |
| Strings.EndsWithAppend | newlibreoffice.py:84-85 | A string followed by `b` ends with `b`. |
| Strings.LowerEndsWithLowerSuffix | newlibreoffice.py:84-85 | Lower-casing a string followed by a lower-case `b` gives a string ending with `b`. |

## Left out

- The `xdg-user-dir TEMPLATES` subprocess call and the decoding of its output (newlibreoffice.py:44-52) are external process I/O; only their failure is modelled, as the input `xdgAvailable` that leads to exit status 1.
- The hard-coded `~/Skabeloner` directory (newlibreoffice.py:54) overwrites the resolved directory unconditionally; the model takes the template directory as a parameter instead.
- Argument parsing with argparse (newlibreoffice.py:56-67) is a library; the model starts from the parsed values (`Args`), with the type limited to the three choices by the `DocType` datatype. The `default='writer'` on the required positional argument has no effect and is not modelled.
- `os.listdir` (newlibreoffice.py:70) is filesystem I/O with an unspecified order; the listing is an input sequence in whatever order the filesystem gives.
- Forming the full paths with `path.join` and `os.getcwd` (newlibreoffice.py:88-89), the status message (newlibreoffice.py:92) and `shutil.copy` (newlibreoffice.py:93) are filesystem and console I/O; the outcome only names what is copied where, and a failing copy (an uncaught exception in the script) is not modelled.
- Starting LibreOffice with `subprocess.Popen` (newlibreoffice.py:97) is process creation; only the argument vector is modelled.
- Strings.Lower: maps only the ASCII letters A-Z; Python's `str.lower` also lower-cases other Unicode letters (some of which change the string's length), which is not modelled.
