/**
 * The files lkpb.py touches, as a map from path to contents, with the
 * operations it performs on them: `read(n)` at a position, `open(p, "wb")`,
 * `write` at the handle's position (which overwrites after a `seek`),
 * `os.replace` and `os.remove`.
 */
module Files {
  import opened Crypto
  import opened Paths

  function Min(a: nat, b: nat): nat
  {
    if a <= b then a else b
  }

  /** `f.read(n)` from position `pos`: the next at most `n` bytes. */
  function Read(s: Bytes, pos: nat, n: nat): (r: Bytes)
    ensures pos <= |s| ==> |r| == Min(n, |s| - pos) && r == s[pos..pos + |r|]
    ensures pos >= |s| ==> r == []
  {
    if pos >= |s| then [] else s[pos..Min(pos + n, |s|)]
  }

  /** Reading past a prefix of `h` bytes is reading the rest from the shifted position. */
  lemma ReadAfter(s: Bytes, h: nat, pos: nat, n: nat)
    requires h <= |s|
    ensures Read(s, h + pos, n) == Read(s[h..], pos, n)
  {
    if h + pos < |s| {
      assert s[h + pos..Min(h + pos + n, |s|)] == s[h..][pos..Min(pos + n, |s| - h)];
    }
  }

  /** The contents after writing `data` at position `pos`: bytes there are replaced, the rest kept. */
  function Overwrite(s: Bytes, pos: nat, data: Bytes): (r: Bytes)
    requires pos <= |s|
    ensures |r| == if pos + |data| <= |s| then |s| else pos + |data|
    ensures r[..pos] == s[..pos] && r[pos..pos + |data|] == data
    ensures pos + |data| <= |s| ==> r[pos + |data|..] == s[pos + |data|..]
  {
    s[..pos] + data + (if pos + |data| <= |s| then s[pos + |data|..] else [])
  }

  /** Writing a header over a placeholder of its own length leaves the bytes after it unchanged. */
  lemma OverwriteHeader(placeholder: Bytes, body: Bytes, header: Bytes)
    requires |placeholder| == |header|
    ensures Overwrite(placeholder + body, 0, header) == header + body
  {
    var r := Overwrite(placeholder + body, 0, header);
    assert r[..|header|] == header;
    assert r[|header|..] == body;
    assert r == r[..|header|] + r[|header|..];
  }

  /** Writing at the end of a file appends. */
  lemma OverwriteEnd(s: Bytes, data: Bytes)
    ensures Overwrite(s, |s|, data) == s + data
  {
  }

  function Zeros(n: nat): (z: Bytes)
    ensures |z| == n && forall i :: 0 <= i < n ==> z[i] == 0
  {
    seq(n, _ => 0)
  }

  class FileSystem {
    var files: map<Path, Bytes>

    constructor (files: map<Path, Bytes>)
      ensures this.files == files
    {
      this.files := files;
    }

    /** `open(p, "wb")`: creates the file, or truncates it. */
    method Create(p: Path)
      modifies this
      ensures files == old(files)[p := []]
    {
      files := files[p := []];
    }

    /** `f.write(data)` on a handle positioned at `pos`. */
    method Write(p: Path, pos: nat, data: Bytes)
      requires p in files && pos <= |files[p]|
      modifies this
      ensures files == old(files)[p := Overwrite(old(files[p]), pos, data)]
    {
      files := files[p := Overwrite(files[p], pos, data)];
    }

    /** `os.replace(src, dst)`: `src` takes the name `dst`, replacing any file there. */
    method Replace(src: Path, dst: Path)
      requires src in files
      modifies this
      ensures files == (old(files) - {src})[dst := old(files[src])]
    {
      files := (files - {src})[dst := files[src]];
    }

    /** `os.remove(p)`. */
    method Remove(p: Path)
      requires p in files
      modifies this
      ensures files == old(files) - {p}
    {
      files := files - {p};
    }
  }
}
