/**
 * The dynamic strings of C/String.c: a `data` buffer holding a
 * NUL-terminated text, the `size` the code keeps for it and the
 * `alloc_size` it believes the buffer has. The buffer is an array of
 * `char`; its real length is tracked apart from `alloc_size`, since the two
 * can differ (StringCreate starts from a one-byte buffer with alloc_size 0).
 *
 * Each operation is stated twice. A `Layout` function computes what the
 * code does to (text, size, alloc_size, buffer length): the `AsWritten`
 * ones follow the source and answer None where it writes past the buffer;
 * the others carry the corrections, never overflow, and are what the
 * `String` class implements on the buffer.
 */
module CString {
  import opened Common
  import opened Mem

  /** A C string's characters: no NUL before the terminator. */
  ghost predicate NoNul(t: string) {
    forall i :: 0 <= i < |t| ==> t[i] != '\0'
  }

  /** The buffer `a` holds the C string `t`: its characters, then the terminator. */
  ghost predicate Holds(a: array<char>, t: string)
    reads a
  {
    NoNul(t) && |t| < a.Length && (forall i :: 0 <= i < |t| ==> a[i] == t[i]) && a[|t|] == '\0'
  }

  /** The text, `size`, `alloc_size` and the number of bytes the buffer really has. */
  datatype Layout = Layout(text: string, size: nat, alloc: nat, room: nat)

  /**
   * The corrected invariant: `size` is the text's length, the text and its
   * terminator fit in the buffer, and alloc_size is the buffer's length,
   * except for the empty string StringCreate leaves with alloc_size 0 in
   * its one-byte buffer.
   */
  ghost predicate Sound(s: Layout) {
    NoNul(s.text) && s.size == |s.text| && |s.text| < s.room &&
    (s.alloc == s.room || (s.alloc == 0 && s.room == 1))
  }

  /** StringCreate's struct before String_rename: a one-byte buffer, size and alloc_size 0. */
  function Blank(): Layout {
    Layout("", 0, 0, 1)
  }

  /**
   * String_rename as written: it reallocates to size + 1 bytes when the
   * text is longer than alloc_size or shorter than a fifth of it, then
   * copies the text and its terminator.
   */
  function RenamedAsWritten(s: Layout, t: string): (r: Option<Layout>)
    ensures r.Some? ==> r.value.text == t && r.value.size == |t| && |t| < r.value.room
    ensures r.None? <==> |t| <= s.alloc && 5 * |t| >= s.alloc && |t| >= s.room
  {
    var size := |t|;
    var realloc := size > s.alloc || 5 * size < s.alloc;
    var alloc := if realloc then size + 1 else s.alloc;
    var room := if realloc then size + 1 else s.room;
    if size + 1 <= room then Some(Layout(t, size, alloc, room)) else None
  }

  /**
   * String_rename reallocating also when the text and its terminator do
   * not fit in the buffer.
   */
  function Renamed(s: Layout, t: string): (r: Layout)
    ensures r.text == t && r.size == |t|
    ensures NoNul(t) && Sound(s) ==> Sound(r)
    ensures |t| < s.alloc && |t| < s.room && 5 * |t| >= s.alloc ==> r.alloc == s.alloc && r.room == s.room
    ensures |t| > s.alloc || |t| >= s.room ==> r.alloc == r.room == |t| + 1
  {
    var size := |t|;
    if size > s.alloc || 5 * size < s.alloc || size >= s.room then Layout(t, size, size + 1, size + 1)
    else Layout(t, size, s.alloc, s.room)
  }

  /** StringCreate of the empty text keeps the one-byte buffer and alloc_size 0. */
  lemma CreateEmpty()
    ensures RenamedAsWritten(Blank(), "") == Some(Blank())
    ensures Renamed(Blank(), "") == Blank() && Sound(Blank())
  {
  }

  /** A non-empty text exactly alloc_size long keeps the buffer, which then has no byte for the terminator. */
  lemma RenameOverflows(s: Layout, t: string)
    requires Sound(s) && |t| == s.alloc > 0
    ensures RenamedAsWritten(s, t) == None
  {
  }

  /** Where no byte is written past the buffer, the two String_rename agree. */
  lemma RenameAgrees(s: Layout, t: string)
    requires Sound(s) && RenamedAsWritten(s, t).Some?
    ensures RenamedAsWritten(s, t).value == Renamed(s, t)
  {
  }

  /**
   * String_append as written: in place with strcat when alloc_size exceeds
   * size + len, otherwise into a calloc'd buffer of size + len + 1 bytes;
   * `size` is left as it was. strcat and strcpy find the end of the text
   * by its terminator, not by `size`.
   */
  function AppendedAsWritten(s: Layout, t: string): (r: Option<Layout>)
    ensures r.Some? ==> r.value.text == s.text + t && r.value.size == s.size
    ensures r.Some? ==> |s.text| + |t| < r.value.room
  {
    var need := |s.text| + |t| + 1;
    if s.alloc > s.size + |t| then
      if need <= s.room then Some(Layout(s.text + t, s.size, s.alloc, s.room)) else None
    else
      var alloc := s.size + |t| + 1;
      if need <= alloc then Some(Layout(s.text + t, s.size, alloc, alloc)) else None
  }

  /** String_append with `size` brought up to date. */
  function Appended(s: Layout, t: string): (r: Layout)
    ensures r.text == s.text + t
    ensures Sound(s) && NoNul(t) ==> Sound(r)
  {
    if s.alloc > s.size + |t| then Layout(s.text + t, s.size + |t|, s.alloc, s.room)
    else Layout(s.text + t, s.size + |t|, s.size + |t| + 1, s.size + |t| + 1)
  }

  /** As written, a non-empty append leaves `size` short of the text. */
  lemma AppendLeavesSize(s: Layout, t: string)
    requires AppendedAsWritten(s, t).Some?
    ensures AppendedAsWritten(s, t).value.size == s.size
    ensures AppendedAsWritten(s, t).value.text == s.text + t
  {
  }

  /** "ab" appended with "c" and then "d": the second strcat writes past the four-byte buffer. */
  lemma AppendTwiceOverflows()
    ensures RenamedAsWritten(Blank(), "ab") == Some(Layout("ab", 2, 3, 3))
    ensures AppendedAsWritten(Layout("ab", 2, 3, 3), "c") == Some(Layout("abc", 2, 4, 4))
    ensures AppendedAsWritten(Layout("abc", 2, 4, 4), "d") == None
  {
    assert "ab" + "c" == "abc";
  }

  /** With `size` kept, the same appends give "abcd". */
  lemma AppendTwiceFixed()
    ensures Appended(Appended(Renamed(Blank(), "ab"), "c"), "d").text == "abcd"
  {
    assert "ab" + "c" + "d" == "abcd";
  }

  /**
   * String_copy as written: a calloc'd struct, so size and alloc_size 0,
   * and a buffer of the source's alloc_size bytes the text is copied into.
   */
  function CopiedAsWritten(s: Layout): (r: Option<Layout>)
    ensures r.Some? ==> r.value == Layout(s.text, 0, 0, s.alloc)
    ensures r.None? <==> |s.text| >= s.alloc
  {
    if |s.text| + 1 <= s.alloc then Some(Layout(s.text, 0, 0, s.alloc)) else None
  }

  /** String_copy that also copies size and alloc_size, into a buffer as long as the original's. */
  function Copied(s: Layout): (r: Layout)
    ensures r.text == s.text
    ensures Sound(s) ==> Sound(r) && r == s
  {
    Layout(s.text, s.size, s.alloc, s.room)
  }

  /**
   * As written, copying StringCreate("") mallocs alloc_size, 0 bytes, and
   * strcpy writes the terminator past them; the corrected copy is the
   * same one-byte string.
   */
  lemma CopyEmptyOverflows()
    ensures CopiedAsWritten(Blank()) == None
    ensures Copied(Blank()) == Blank()
  {
  }

  /** String_join as written: String_copy, then String_append of the other text. */
  function JoinedAsWritten(a: Layout, b: Layout): (r: Option<Layout>)
    ensures r.Some? ==> r.value.text == a.text + b.text && r.value.size == 0
  {
    match CopiedAsWritten(a)
    case None => None
    case Some(c) => AppendedAsWritten(c, b.text)
  }

  /** String_join with the corrected copy and append. */
  function Joined(a: Layout, b: Layout): (r: Layout)
    ensures r.text == a.text + b.text
    ensures Sound(a) && NoNul(b.text) ==> Sound(r)
  {
    Appended(Copied(a), b.text)
  }

  /**
   * As written, joining any non-empty string writes past the new buffer:
   * the copy's alloc_size 0 sends String_append to a buffer of len + 1
   * bytes, into which the whole first text is copied.
   */
  lemma JoinOverflows(a: Layout, b: Layout)
    requires Sound(a) && |a.text| > 0
    ensures CopiedAsWritten(a) == Some(Layout(a.text, 0, 0, a.alloc))
    ensures JoinedAsWritten(a, b) == None
  {
  }

  class String {
    var data: array<char>
    var size: nat
    /** alloc_size. */
    var alloc: nat
    /** The C string the buffer holds. */
    ghost var text: string

    ghost function Shape(): Layout
      reads this
    {
      Layout(text, size, alloc, data.Length)
    }

    ghost predicate Valid()
      reads this, data
    {
      Sound(Shape()) && Holds(data, text)
    }

    /**
     * StringCreate: String_rename of a one-byte buffer with alloc_size 0,
     * which reallocates to the text's length plus one unless the text is
     * empty; the empty text keeps the one byte and alloc_size 0.
     */
    constructor (t: string)
      requires NoNul(t)
      ensures Valid() && fresh(data) && text == t && Shape() == Renamed(Blank(), t)
      ensures t == "" ==> alloc == 0 && data.Length == 1
      ensures t != "" ==> alloc == data.Length == |t| + 1
    {
      var buffer := new char[1](_ => '\0');
      var a := 0;
      if |t| > a {
        a := |t| + 1;
        buffer := Realloc(buffer, a);
      }
      CopyIn(buffer, 0, t + ['\0']);
      data, size, alloc := buffer, |t|, a;
      text := t;
    }

    /** The struct String_copy fills in. */
    constructor Of(data: array<char>, size: nat, alloc: nat, ghost text: string)
      ensures this.data == data && this.size == size && this.alloc == alloc && this.text == text
    {
      this.data, this.size, this.alloc, this.text := data, size, alloc, text;
    }

    /** String_rename: the text becomes `t`, in a new buffer of |t| + 1 bytes when it does not fit or is far too small. */
    method Rename(t: string)
      requires Valid() && NoNul(t)
      modifies this, data
      ensures Valid() && text == t && Shape() == Renamed(old(Shape()), t)
      ensures data != old(data) ==> fresh(data)
    {
      size := |t|;
      var less := 5 * size < alloc;
      var more := size > alloc || size >= data.Length;
      if more || less {
        alloc := size + 1;
        data := Realloc(data, alloc);
      }
      CopyIn(data, 0, t + ['\0']);
      text := t;
    }

    /** String_append: `t` after the text, in place when alloc_size has room, otherwise in a calloc'd buffer. */
    method Append(t: string)
      requires Valid() && NoNul(t)
      modifies this, data
      ensures Valid() && text == old(text) + t && Shape() == Appended(old(Shape()), t)
      ensures data != old(data) ==> fresh(data)
    {
      var len := |t|;
      if alloc > size + len {
        CatInPlace(t);
      } else {
        var buffer := CatMoved(t);
        alloc := size + len + 1;
        data := buffer;
      }
      size := size + len;
      text := text + t;
    }

    /** The in-place branch of String_append: strcat into the buffer, which has room. */
    method CatInPlace(t: string)
      requires Valid() && NoNul(t) && alloc > size + |t|
      modifies data
      ensures Holds(data, text + t)
    {
      var end := StrLen(data, text);
      CopyIn(data, end, t + ['\0']);
    }

    /** The other branch of String_append: a calloc'd buffer of size + len + 1 bytes, strcpy, then strcat. */
    method CatMoved(t: string) returns (buffer: array<char>)
      requires Valid() && NoNul(t)
      ensures fresh(buffer) && buffer.Length == size + |t| + 1 && Holds(buffer, text + t)
    {
      buffer := new char[size + |t| + 1](_ => '\0');
      StrCpy(buffer, data, text);
      var end := StrLen(buffer, text);
      CopyIn(buffer, end, t + ['\0']);
    }

    /** String_copy: a new string with the same text, size and alloc_size in a buffer as long as this one's. */
    method Copy() returns (c: String)
      requires Valid()
      ensures fresh(c) && fresh(c.data) && c.Valid() && c.text == text && c.Shape() == Copied(Shape())
    {
      var buffer := new char[data.Length];
      StrCpy(buffer, data, text);
      c := new String.Of(buffer, size, alloc, text);
    }
  }

  /** strlen: the position of the terminator. */
  method StrLen(a: array<char>, ghost t: string) returns (n: nat)
    requires Holds(a, t)
    ensures n == |t|
  {
    n := 0;
    while a[n] != '\0'
      invariant n <= |t|
      decreases |t| - n
    {
      n := n + 1;
    }
  }

  /** strcpy: the C string in `src`, terminator included, to the start of `dst`. */
  method StrCpy(dst: array<char>, src: array<char>, ghost t: string)
    requires Holds(src, t) && |t| < dst.Length && dst != src
    modifies dst
    ensures Holds(dst, t)
    ensures forall i :: |t| < i < dst.Length ==> dst[i] == old(dst[i])
  {
    var i := 0;
    while src[i] != '\0'
      invariant i <= |t| && forall k :: 0 <= k < i ==> dst[k] == t[k]
      invariant forall k :: i <= k < dst.Length ==> dst[k] == old(dst[k])
      decreases |t| - i
    {
      dst[i] := src[i];
      i := i + 1;
    }
    dst[i] := '\0';
  }

  /** String_join: a copy of `a` with the text of `b` appended. */
  method Join(a: String, b: String) returns (r: String)
    requires a.Valid() && b.Valid()
    ensures fresh(r) && r.Valid() && r.text == a.text + b.text && r.Shape() == Joined(a.Shape(), b.Shape())
  {
    r := a.Copy();
    var n := StrLen(b.data, b.text);
    assert b.data[..n] == b.text;
    r.Append(b.data[..n]);
  }

  /** String_equals: strcmp finds no difference before the terminators. */
  method Equals(a: String, b: String) returns (r: bool)
    requires a.Valid() && b.Valid()
    ensures r <==> a.text == b.text
  {
    var i := 0;
    while a.data[i] == b.data[i] && a.data[i] != '\0'
      invariant i <= |a.text| && i <= |b.text| && a.text[..i] == b.text[..i]
      decreases |a.text| - i
    {
      i := i + 1;
    }
    if a.data[i] == b.data[i] {
      assert i == |a.text| && i == |b.text|;
      assert a.text == a.text[..i] && b.text == b.text[..i];
    } else if i < |a.text| && i < |b.text| {
      assert a.text[i] != b.text[i];
    }
    r := a.data[i] == b.data[i];
  }

  /** "ab" appended with "c" and "d" reads "abcd", with size 4. */
  method AppendScenario() returns (equal: bool, size: nat)
    ensures equal && size == 4
  {
    var s := new String("ab");
    s.Append("c");
    s.Append("d");
    var e := new String("abcd");
    assert "ab" + "c" + "d" == "abcd";
    equal := Equals(s, e);
    size := s.size;
  }

  /** "ab" renamed to "abc" (alloc_size 3, so a new buffer) equals "abc". */
  method RenameScenario() returns (renamed: bool, alloc: nat)
    ensures renamed && alloc == 4
  {
    var s := new String("ab");
    s.Rename("abc");
    var abc := new String("abc");
    renamed := Equals(s, abc);
    alloc := s.alloc;
  }

  /** "ab" joined with "cd" equals "abcd" but not "abdc". */
  method JoinScenario() returns (joined: bool, other: bool)
    ensures joined && !other
  {
    var a := new String("ab");
    var b := new String("cd");
    var j := Join(a, b);
    var yes := new String("abcd");
    var no := new String("abdc");
    assert "ab" + "cd" == "abcd";
    joined := Equals(j, yes);
    assert "abcd"[2] != "abdc"[2];
    other := Equals(j, no);
  }
}
