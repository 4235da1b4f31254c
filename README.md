# csync file identifier assignment

This project models `csync_vio_set_file_id` from csync, the synchronisation
library of the ownCloud desktop client. The function stamps a file identifier
into the fixed-size `file_id` buffer of a file-status record. It does three
things:

- If either pointer is null, it does nothing.
- If the identifier is longer than `FILE_ID_BUF_SIZE`, it logs an error and
  empties the buffer instead of truncating the identifier.
- Otherwise it copies the whole identifier and its terminating NUL.

The model is the single module `CsyncVioFileStat` in
`csync_vio_file_stat.dfy`:

- The destination `char *` is an `array?<char>`; `null` is the null pointer. A
  non-null buffer has `FILE_ID_BUF_SIZE + 1` cells.
- The source `const char *` is an `Option<seq<char>>` holding the characters
  before the terminator, so its length is `strlen(src)`.
- One Dafny `char` stands for one C `char`, that is one byte. Lengths count
  bytes, as `strlen` does, so an identifier with non-ASCII characters must be
  given as its bytes, not as Unicode characters.
- `strcpy` is the method `StrCpy`, a copy loop followed by the terminator.
- `FileIdAfter` describes the buffer contents after a call, as a value.
  `SetFileId` is proved to leave exactly those contents.
- `CString` is what any C reader of the buffer sees: the characters before
  the first NUL. The lemmas state the outcome in those terms.

## Model

| member | source | states |
|---|---|---|
| CsyncVioFileStat.CString | src/csync/vio/csync_vio_file_stat.cpp:27-31 | the string read back from a buffer is a NUL-free prefix of the buffer, ended by a NUL or by the end of the buffer |
| CsyncVioFileStat.ValidSource | src/csync/vio/csync_vio_file_stat.cpp:25-27 | a non-null source is a well-formed C string: read as a C string it yields all of its characters, so `strlen` is its length |
| CsyncVioFileStat.Copied | src/csync/vio/csync_vio_file_stat.cpp:29-31 | the buffer after `strcpy(buf, s)` keeps its length, holds `s` in cells `0..|s|-1` and a NUL in cell `|s|`, and every later cell is unchanged |
| CsyncVioFileStat.CellsWritten | src/csync/vio/csync_vio_file_stat.cpp:26-31 | a call writes at most `FILE_ID_BUF_SIZE + 1` leading cells, and writes none exactly when the source is null |
| CsyncVioFileStat.FileIdAfter | src/csync/vio/csync_vio_file_stat.cpp:25-34 | the buffer keeps its length and every cell past the ones written; a fitting source and its NUL occupy cells `0..|src|`; a too-long source leaves a NUL in cell 0 |
| CsyncVioFileStat.StrCpy | src/csync/vio/csync_vio_file_stat.cpp:29-31 | `strcpy` writes the string and its NUL at the front of the buffer and leaves every later cell unchanged |
| CsyncVioFileStat.SetFileId | src/csync/vio/csync_vio_file_stat.cpp:25-34 | a null destination or source changes nothing; otherwise the buffer becomes `FileIdAfter` of its old contents and reads back as the source, or as the empty string when the source is too long; the error is logged exactly when both pointers are non-null and the source is too long |
| CsyncVioFileStat.CStringCopied | src/csync/vio/csync_vio_file_stat.cpp:29-31 | after `strcpy(buf, s)` the buffer reads back as exactly `s` |
| CsyncVioFileStat.FitsIsStored | src/csync/vio/csync_vio_file_stat.cpp:30-31 | an identifier of at most `FILE_ID_BUF_SIZE` characters is stored whole |
| CsyncVioFileStat.TooLongIsCleared | src/csync/vio/csync_vio_file_stat.cpp:27-29 | an identifier longer than `FILE_ID_BUF_SIZE` leaves the buffer holding the empty string |
| CsyncVioFileStat.NeverTruncated | src/csync/vio/csync_vio_file_stat.cpp:27-32 | the buffer reads back as the whole source, or as empty when the source is too long; never as a shortened identifier |
| CsyncVioFileStat.Boundary | src/csync/vio/csync_vio_file_stat.cpp:27 | `TooLong`, the test at line 27, sits exactly at the capacity: an identifier of exactly `FILE_ID_BUF_SIZE` characters is accepted; one of `FILE_ID_BUF_SIZE + 1` characters is rejected |
| CsyncVioFileStat.LeavesTerminated | src/csync/vio/csync_vio_file_stat.cpp:26-32 | after a call with a non-null source the buffer is NUL-terminated and holds at most `FILE_ID_BUF_SIZE` characters; a null source keeps a terminated buffer terminated |
| CsyncVioFileStat.Idempotent | src/csync/vio/csync_vio_file_stat.cpp:25-34 | calling twice with the same source leaves the same buffer as calling once |

## Left out

- The `CSYNC_LOG` call (line 28) is not modelled as output. `SetFileId` returns a ghost `errorLogged` flag saying whether the error was reported. The message text and the identifier it prints are not modelled.
- The definition of `FILE_ID_BUF_SIZE` and the file-status record that owns the buffer are not part of this model. The constant is left without a value, and the buffer length `FILE_ID_BUF_SIZE + 1` is a precondition of `SetFileId`. That length is what the accept branch needs for a string of exactly `FILE_ID_BUF_SIZE` characters.
- Raw C strings are not modelled. A source is its characters before the terminator: NUL-free, with `strlen` as its length. Embedded NULs and unterminated memory are outside the model.
- Aliasing is not modelled. The source is a value read whole before any write, so the model assumes `src` and `dst` do not overlap. `strcpy` (line 31) has undefined behaviour when they do, for example `csync_vio_set_file_id(st->file_id, st->file_id + 1)`, and that behaviour is not modelled.
- `strlen` (line 27) is the length of the source sequence, not a scan loop.
- src/common/utility.h is not part of this model. It only declares platform and Qt wrappers, floating-point formatting and wall-clock timers.
