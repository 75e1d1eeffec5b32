/** The part of java.io / java.nio file access the services use: a file opened for reading. */
module JavaIo {
  import opened Tiling

  /**
   * An open file (RandomAccessFile or FileChannel) over fixed contents.
   * `Read` is specified loosely: it may return fewer bytes than asked, and
   * -1 exactly when the position is at or past the end; callers are proved
   * against that contract only.
   */
  class FileHandle {
    const data: seq<bv8>
    var cursor: nat

    constructor (contents: seq<bv8>)
      ensures data == contents && cursor == 0
    {
      data := contents;
      cursor := 0;
    }

    method Seek(position: nat)
      modifies this
      ensures cursor == position
    {
      cursor := position;
    }

    method Read(b: array<bv8>, off: nat, len: nat) returns (n: int)
      requires off + len <= b.Length
      modifies this, b
      ensures len == 0 ==> n == 0
      ensures len > 0 && old(cursor) >= |data| ==> n == -1
      ensures len > 0 && old(cursor) < |data| ==> 1 <= n <= len && old(cursor) + n <= |data|
      ensures n <= 0 ==> cursor == old(cursor) && b[..] == old(b[..])
      ensures n > 0 ==>
        && cursor == old(cursor) + n
        && b[off..off + n] == data[old(cursor)..old(cursor) + n]
        && b[..off] == old(b[..off]) && b[off + n..] == old(b[off + n..])
    {
      if len == 0 {
        n := 0;
      } else if cursor >= |data| {
        n := -1;
      } else {
        n := Min(len, |data| - cursor);
        var i := 0;
        while i < n
          invariant 0 <= i <= n
          invariant cursor == old(cursor)
          invariant b[off..off + i] == data[cursor..cursor + i]
          invariant b[..off] == old(b[..off]) && b[off + n..] == old(b[off + n..])
        {
          b[off + i] := data[cursor + i];
          i := i + 1;
        }
        cursor := cursor + n;
      }
    }
  }
}
