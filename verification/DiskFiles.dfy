/**
 A file that is edited in place through a temporary copy of its right part,
 copied section by section.
 */
module DiskFiles {
  import opened Bytes

  /** DFSB::sectionSize; the model allows any positive size. */
  const SECTION_SIZE: nat := 524228

  /** std::filesystem::resize_file: cut at n, or filled up with zero bytes. */
  function Resized(f: Bytes, n: nat): (r: Bytes)
    ensures |r| == n
  {
    if n <= |f| then f[..n] else f + seq(n - |f|, _ => 0)
  }

  function Spliced(f: Bytes, pos: nat, data: Bytes): Bytes {
    Resized(f, pos) + data + From(f, pos)
  }

  function Removed(f: Bytes, pos: nat, size: nat): Bytes {
    Resized(f, pos) + From(f, pos + size)
  }

  /** The copy loop of write, remove, insertDataChunk and removeDataChunk. */
  method CopySections(source: Bytes, start: nat, sectionSize: nat) returns (target: Bytes)
    requires sectionSize > 0
    ensures target == From(source, start)
  {
    target := [];
    var i := start;
    while i < |source|
      invariant i >= start
      invariant start <= |source| && i <= |source| ==> target == source[start..i]
      invariant i > |source| ==> target == From(source, start)
      decreases |source| - i
    {
      if i + sectionSize < |source| {
        target := target + source[i..i + sectionSize];
      } else {
        target := target + source[i..];
      }
      i := i + sectionSize;
    }
  }

  class DiskFile {
    var content: Bytes

    constructor (content: Bytes)
      ensures this.content == content
    {
      this.content := content;
    }

    /** FragmentStorage::write. */
    method Write(pos: nat, data: Bytes, sectionSize: nat) returns (r: nat)
      requires sectionSize > 0
      modifies this
      ensures r == pos && content == Spliced(old(content), pos, data)
    {
      var fz := |content|;
      if pos == fz {
        content := content + data;
        return pos;
      }
      var right := CopySections(content, pos, sectionSize);
      var temp := data + right;
      if pos == 0 {
        content := temp;
      } else {
        content := Resized(content, pos);
        var copied := CopySections(temp, 0, sectionSize);
        content := content + copied;
      }
      return pos;
    }

    /** FragmentStorage::remove. */
    method Remove(pos: nat, size: nat, sectionSize: nat) returns (r: bool)
      requires sectionSize > 0
      modifies this
      ensures r && content == Removed(old(content), pos, size)
    {
      var temp := CopySections(content, pos + size, sectionSize);
      content := Resized(content, pos);
      var copied := CopySections(temp, 0, sectionSize);
      content := content + copied;
      return true;
    }

    /** DfsController::insertDataChunk: as Write, without its two short cuts. */
    method InsertDataChunk(data: Bytes, position: nat, sectionSize: nat) returns (r: bool)
      requires sectionSize > 0
      modifies this
      ensures r && content == Spliced(old(content), position, data)
    {
      var right := CopySections(content, position, sectionSize);
      var temp := data + right;
      content := Resized(content, position);
      var copied := CopySections(temp, 0, sectionSize);
      content := content + copied;
      return true;
    }

    /** DfsController::removeDataChunk. */
    method RemoveDataChunk(position: nat, length: nat, sectionSize: nat) returns (r: bool)
      requires sectionSize > 0
      modifies this
      ensures r && content == Removed(old(content), position, length)
    {
      var temp := CopySections(content, position + length, sectionSize);
      content := Resized(content, position);
      var copied := CopySections(temp, 0, sectionSize);
      content := content + copied;
      return true;
    }
  }

  // ----- Properties -----

  /** Byte by byte: what was before the position (zero past the end), the data, and the rest moved on. */
  lemma SplicedAt(f: Bytes, pos: nat, data: Bytes, i: nat)
    ensures var g := Spliced(f, pos, data);
            && |g| == (if pos > |f| then pos else |f|) + |data|
            && (i < |g| ==> g[i] == if i < pos then (if i < |f| then f[i] else 0)
                                    else if i < pos + |data| then data[i - pos] else f[i - |data|])
  {
  }

  /** Byte by byte: what was before the position (zero past the end), and what was behind the range. */
  lemma RemovedAt(f: Bytes, pos: nat, size: nat, i: nat)
    ensures var g := Removed(f, pos, size);
            && |g| == (if pos + size <= |f| then |f| - size else pos)
            && (i < |g| ==> g[i] == if i < pos then (if i < |f| then f[i] else 0) else f[i + size])
  {
  }

  /** Removing what was inserted restores the file exactly when the position lay within it. */
  lemma RemoveUndoesWrite(f: Bytes, pos: nat, data: Bytes)
    ensures Removed(Spliced(f, pos, data), pos, |data|) == f <==> pos <= |f|
  {
    var g := Spliced(f, pos, data);
    assert g[..pos] == Resized(f, pos);
    assert g[pos + |data|..] == From(f, pos);
    if pos <= |f| {
      assert f == f[..pos] + f[pos..];
    } else {
      assert |Removed(g, pos, |data|)| == pos;
    }
  }

  /** Inserting what was removed restores the file. */
  lemma WriteUndoesRemove(f: Bytes, pos: nat, size: nat)
    requires pos + size <= |f|
    ensures Spliced(Removed(f, pos, size), pos, f[pos..pos + size]) == f
  {
    var g := Removed(f, pos, size);
    assert g[..pos] == f[..pos] && g[pos..] == f[pos + size..];
    assert f == f[..pos] + f[pos..pos + size] + f[pos + size..];
  }

  /** The bytes of f with those from pos on, as far as f reaches, replaced by data. */
  function Overwritten(f: Bytes, pos: nat, data: Bytes): (r: Bytes)
    ensures |r| == |f|
  {
    seq(|f|, i requires 0 <= i < |f| => if pos <= i < pos + |data| then data[i - pos] else f[i])
  }

  /** Removing a range inside the file and writing as many bytes in its place overwrites it. */
  lemma ReplaceIsOverwrite(f: Bytes, pos: nat, data: Bytes)
    requires pos + |data| <= |f|
    ensures Spliced(Removed(f, pos, |data|), pos, data) == Overwritten(f, pos, data)
  {
    var g := Removed(f, pos, |data|);
    assert g[..pos] == f[..pos] && g[pos..] == f[pos + |data|..];
    assert Spliced(g, pos, data) == f[..pos] + data + f[pos + |data|..];
  }
}
