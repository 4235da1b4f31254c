/**
 * A model of csync's `csync_vio_set_file_id`, which stamps a file identifier
 * into the fixed-size `file_id` field of a file-status record.
 *
 * C's `char *` buffers are arrays of `char`; one Dafny `char` stands for one
 * C `char`, that is one byte, so lengths here count bytes as `strlen` does.
 * A null pointer is `null` for the destination and `None` for the source. A
 * C string is modelled by the characters before its terminating NUL, so its
 * `strlen` is its length.
 */
module CsyncVioFileStat {

  /** A possibly-null `const char *` argument. */
  datatype Option<T> = None | Some(value: T)

  /**
   * Capacity of the identifier field, not counting the terminator. Since
   * the copy branch writes a string of `FILE_ID_BUF_SIZE` characters and its
   * terminator, the field is taken to hold `FILE_ID_BUF_SIZE + 1` characters.
   * The constant's value is defined outside this model, so none is assumed.
   */
  const FILE_ID_BUF_SIZE: nat

  const NUL: char := '\0'

  /**
   * A non-null source points at a well-formed C string: no NUL before its
   * end, so that a C reader sees all of it and `strlen` is its length.
   */
  predicate ValidSource(src: Option<seq<char>>)
    ensures ValidSource(src) <==> (src.Some? ==> CString(src.value) == src.value)
  {
    src.Some? ==> NUL !in src.value
  }

  /** The C string a reader of `buf` sees: everything before the first NUL. */
  function CString(buf: seq<char>): (r: seq<char>)
    ensures r <= buf
    ensures NUL !in r
    ensures |r| < |buf| ==> buf[|r|] == NUL
  {
    if buf == [] || buf[0] == NUL then [] else [buf[0]] + CString(buf[1..])
  }

  /** The buffer `buf` after `strcpy(buf, s)`. */
  function Copied(buf: seq<char>, s: seq<char>): (r: seq<char>)
    requires |s| < |buf|
    ensures |r| == |buf|
    ensures r[..|s|] == s && r[|s|] == NUL
    ensures r[|s| + 1..] == buf[|s| + 1..]
  {
    s + [NUL] + buf[|s| + 1..]
  }

  /** Whether the source is present and longer than the field can hold. */
  predicate TooLong(src: Option<seq<char>>)
  {
    src.Some? && |src.value| > FILE_ID_BUF_SIZE
  }

  /**
   * The number of leading cells of the field that the call writes: none
   * for a null source, one (the terminator) for a rejected source, and the
   * whole identifier with its terminator otherwise.
   */
  function CellsWritten(src: Option<seq<char>>): (n: nat)
    ensures n <= FILE_ID_BUF_SIZE + 1
    ensures n == 0 <==> src.None?
  {
    match src
    case None => 0
    case Some(s) => if |s| > FILE_ID_BUF_SIZE then 1 else |s| + 1
  }

  /** The contents of a non-null field after `csync_vio_set_file_id(buf, src)`. */
  function FileIdAfter(buf: seq<char>, src: Option<seq<char>>): (r: seq<char>)
    requires |buf| == FILE_ID_BUF_SIZE + 1
    ensures |r| == |buf|
    ensures forall i :: CellsWritten(src) <= i < |buf| ==> r[i] == buf[i]
    ensures src.Some? && !TooLong(src) ==>
      r[..|src.value|] == src.value && r[|src.value|] == NUL
    ensures TooLong(src) ==> r[0] == NUL
  {
    match src
    case None => buf
    case Some(s) => if |s| > FILE_ID_BUF_SIZE then Copied(buf, "") else Copied(buf, s)
  }

  /** `strcpy(dst, s)`: copy `s` character by character, then its terminator. */
  method StrCpy(dst: array<char>, s: seq<char>)
    requires NUL !in s && |s| < dst.Length
    modifies dst
    ensures dst[..] == Copied(old(dst[..]), s)
  {
    var i := 0;
    while i < |s|
      invariant 0 <= i <= |s|
      invariant forall k :: 0 <= k < i ==> dst[k] == s[k]
      invariant forall k :: i <= k < dst.Length ==> dst[k] == old(dst[k])
    {
      dst[i] := s[i];
      i := i + 1;
    }
    dst[i] := NUL;
  }

  /**
   * `csync_vio_set_file_id(dst, src)`. The ghost result records whether the
   * "too long" error was logged.
   */
  method SetFileId(dst: array?<char>, src: Option<seq<char>>) returns (ghost errorLogged: bool)
    requires dst != null ==> dst.Length == FILE_ID_BUF_SIZE + 1
    requires ValidSource(src)
    modifies dst
    ensures dst != null ==> dst[..] == FileIdAfter(old(dst[..]), src)
    ensures dst != null && src.Some? ==>
      CString(dst[..]) == if TooLong(src) then "" else src.value
    ensures errorLogged <==> dst != null && TooLong(src)
  {
    errorLogged := false;
    if src.Some? && dst != null {
      var s := src.value;
      if |s| > FILE_ID_BUF_SIZE {
        errorLogged := true;
        StrCpy(dst, "");
        TooLongIsCleared(old(dst[..]), s);
      } else {
        StrCpy(dst, s);
        FitsIsStored(old(dst[..]), s);
      }
    }
  }

  /** Reading back a buffer written by `strcpy` yields exactly the string copied. */
  lemma CStringCopied(buf: seq<char>, s: seq<char>)
    requires |s| < |buf| && NUL !in s
    ensures CString(Copied(buf, s)) == s
  {
  }

  /** A fitting identifier is stored whole. */
  lemma FitsIsStored(buf: seq<char>, s: seq<char>)
    requires |buf| == FILE_ID_BUF_SIZE + 1
    requires NUL !in s && |s| <= FILE_ID_BUF_SIZE
    ensures CString(FileIdAfter(buf, Some(s))) == s
  {
    CStringCopied(buf, s);
  }

  /** An over-long identifier leaves the field holding the empty string. */
  lemma TooLongIsCleared(buf: seq<char>, s: seq<char>)
    requires |buf| == FILE_ID_BUF_SIZE + 1
    requires |s| > FILE_ID_BUF_SIZE
    ensures CString(FileIdAfter(buf, Some(s))) == ""
  {
    CStringCopied(buf, "");
  }

  /** The field never holds a truncated identifier: it is the source or empty. */
  lemma NeverTruncated(buf: seq<char>, s: seq<char>)
    requires |buf| == FILE_ID_BUF_SIZE + 1 && NUL !in s
    ensures var c := CString(FileIdAfter(buf, Some(s)));
      c == s || (c == "" && |s| > FILE_ID_BUF_SIZE)
  {
    if |s| > FILE_ID_BUF_SIZE {
      TooLongIsCleared(buf, s);
    } else {
      FitsIsStored(buf, s);
    }
  }

  /** The boundary: exactly `FILE_ID_BUF_SIZE` characters fit, one more does not. */
  lemma Boundary(buf: seq<char>, s: seq<char>, c: char)
    requires |buf| == FILE_ID_BUF_SIZE + 1
    requires NUL !in s && c != NUL && |s| == FILE_ID_BUF_SIZE
    ensures CString(FileIdAfter(buf, Some(s))) == s
    ensures CString(FileIdAfter(buf, Some(s + [c]))) == ""
  {
    FitsIsStored(buf, s);
    TooLongIsCleared(buf, s + [c]);
  }

  /**
   * After any call with a non-null source the field holds a terminated
   * string of at most `FILE_ID_BUF_SIZE` characters; a null source keeps
   * an already terminated field terminated.
   */
  lemma LeavesTerminated(buf: seq<char>, src: Option<seq<char>>)
    requires |buf| == FILE_ID_BUF_SIZE + 1
    requires src.Some? || NUL in buf
    ensures var r := FileIdAfter(buf, src);
      NUL in r && |CString(r)| <= FILE_ID_BUF_SIZE
  {
  }

  /** Calling twice with the same source leaves what calling once leaves. */
  lemma Idempotent(buf: seq<char>, src: Option<seq<char>>)
    requires |buf| == FILE_ID_BUF_SIZE + 1
    ensures FileIdAfter(FileIdAfter(buf, src), src) == FileIdAfter(buf, src)
  {
  }
}
