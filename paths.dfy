/**
 * The path rules of lkpb.py: which paths each mode skips, and how the
 * temporary, encrypted and decrypted names are derived.
 */
module Paths {
  type Path = string

  const SUFFIX: string := ".cr"
  const TMP_SUFFIX: string := ".tmp"

  predicate EndsWith(s: string, suffix: string)
  {
    |suffix| <= |s| && s[|s| - |suffix|..] == suffix
  }

  /** `os.path.basename` on POSIX: the longest suffix without a '/'. */
  function Basename(p: Path): (b: Path)
    ensures |b| <= |p| && b == p[|p| - |b|..]
    ensures forall i :: 0 <= i < |b| ==> b[i] != '/'
    ensures |b| < |p| ==> p[|p| - |b| - 1] == '/'
    decreases |p|
  {
    if |p| == 0 || p[|p| - 1] == '/' then [] else Basename(p[..|p| - 1]) + [p[|p| - 1]]
  }

  /** `encrypt_file` returns at once for a container or for the script itself. */
  predicate EncryptSkips(path: Path, script: Path): (skip: bool)
    ensures skip <==> !DecryptSkips(path) || Basename(path) == script
  {
    EndsWith(path, SUFFIX) || Basename(path) == script
  }

  /** `decrypt_file` returns at once for anything but a container. */
  predicate DecryptSkips(path: Path): (skip: bool)
    ensures !skip <==> |path| >= |SUFFIX| && path == EncryptedName(path[..|path| - |SUFFIX|])
  {
    !EndsWith(path, SUFFIX)
  }

  /** The name of the committed container. */
  function EncryptedName(path: Path): (r: Path)
    ensures |r| == |path| + |SUFFIX| && EndsWith(r, SUFFIX) && r[..|path|] == path && r != path
  {
    path + SUFFIX
  }

  /** The temporary file `encrypt_file` writes before renaming. */
  function TempName(path: Path): (r: Path)
    ensures |r| == |path| + |TMP_SUFFIX| && r[..|path|] == path && r != path && r != EncryptedName(path)
  {
    assert (path + TMP_SUFFIX)[|path| + 1] != EncryptedName(path)[|path| + 1];
    path + TMP_SUFFIX
  }

  /** `s.replace(".cr", "")`: every non-overlapping occurrence, scanned left to right, is removed. */
  function RemoveAll(s: string): (r: string)
    ensures |r| <= |s|
    decreases |s|
  {
    if |s| >= |SUFFIX| && s[..|SUFFIX|] == SUFFIX then RemoveAll(s[|SUFFIX|..])
    else if |s| == 0 then []
    else [s[0]] + RemoveAll(s[1..])
  }

  /** The name `decrypt_file` writes the plaintext to: every ".cr" removed, so never longer than the path. */
  function DecryptedName(path: Path): (r: Path)
    ensures |r| <= |path|
  {
    RemoveAll(path)
  }

  predicate Occurs(s: string, i: nat)
  {
    i + |SUFFIX| <= |s| && s[i..i + |SUFFIX|] == SUFFIX
  }

  predicate NoOccurrence(s: string)
  {
    forall i: nat | i < |s| :: !Occurs(s, i)
  }

  /** Removing occurrences shortens the string whenever there is one. */
  lemma {:induction false} RemoveAllShrinks(s: string, i: nat)
    requires Occurs(s, i)
    ensures |RemoveAll(s)| < |s|
    decreases |s|
  {
    if |s| >= |SUFFIX| && s[..|SUFFIX|] == SUFFIX {
    } else {
      assert i > 0;
      assert s[1..][i - 1..i - 1 + |SUFFIX|] == s[i..i + |SUFFIX|];
      RemoveAllShrinks(s[1..], i - 1);
    }
  }

  /** The derived name is the path itself exactly when the path has no ".cr" in it. */
  lemma {:induction false} RemoveAllIdentity(s: string)
    ensures RemoveAll(s) == s <==> NoOccurrence(s)
    decreases |s|
  {
    if NoOccurrence(s) {
      if |s| > 0 {
        assert !Occurs(s, 0);
        NoOccurrenceTail(s);
        RemoveAllIdentity(s[1..]);
        assert RemoveAll(s) == [s[0]] + RemoveAll(s[1..]);
        assert [s[0]] + s[1..] == s;
      }
    } else {
      var i: nat :| i < |s| && Occurs(s, i);
      RemoveAllShrinks(s, i);
    }
  }

  /** A decryption never targets the container it reads. */
  lemma DecryptedNameDiffers(path: Path)
    requires EndsWith(path, SUFFIX)
    ensures DecryptedName(path) != path
  {
    assert Occurs(path, |path| - |SUFFIX|);
    RemoveAllShrinks(path, |path| - |SUFFIX|);
  }

  /** A name free of ".cr" stays free of it when its first character is dropped. */
  lemma NoOccurrenceTail(a: string)
    requires |a| > 0 && NoOccurrence(a)
    ensures NoOccurrence(a[1..])
  {
    forall i: nat | i < |a[1..]| ensures !Occurs(a[1..], i) {
      assert !Occurs(a, i + 1);
      if i + |SUFFIX| <= |a[1..]| {
        assert a[1..][i..i + |SUFFIX|] == a[i + 1..i + 1 + |SUFFIX|];
      }
    }
  }

  /** A non-empty name free of ".cr" does not begin one, even with a ".cr" right after it. */
  lemma NoOccurrenceStart(a: string, b: string)
    requires |a| > 0 && NoOccurrence(a)
    ensures (a + SUFFIX + b)[..|SUFFIX|] != SUFFIX
  {
    var s := a + SUFFIX + b;
    if |a| >= |SUFFIX| {
      assert !Occurs(a, 0);
      assert s[..|SUFFIX|] == a[..|SUFFIX|];
    } else if |a| == 1 {
      assert s[..|SUFFIX|][1] == '.';
    } else {
      assert s[..|SUFFIX|][2] == '.';
    }
  }

  /** The scan removes the first ".cr" and carries on past it: what precedes it is kept as it is. */
  lemma {:induction false} RemoveFirst(a: string, b: string)
    requires NoOccurrence(a)
    ensures RemoveAll(a + SUFFIX + b) == a + RemoveAll(b)
    decreases |a|
  {
    var s := a + SUFFIX + b;
    if |a| == 0 {
      assert s[..|SUFFIX|] == SUFFIX && s[|SUFFIX|..] == b;
    } else {
      NoOccurrenceStart(a, b);
      NoOccurrenceTail(a);
      assert s[1..] == a[1..] + SUFFIX + b;
      assert RemoveAll(s) == [s[0]] + RemoveAll(s[1..]);
      RemoveFirst(a[1..], b);
      assert [s[0]] + a[1..] == a;
    }
  }

  /** Decrypting the name of an encrypted file gives back its name when that name holds no ".cr". */
  lemma DecryptedNameOfEncrypted(q: Path)
    requires NoOccurrence(q)
    ensures DecryptedName(EncryptedName(q)) == q
  {
    RemoveFirst(q, []);
    assert q + SUFFIX + [] == EncryptedName(q);
  }

  /** An instance: every ".cr" goes, so a container inside a ".cr" directory is written into another directory. */
  lemma RemovesEveryOccurrence()
    ensures DecryptedName("d.cr/f.cr") == "d/f"
  {
    var inner: string := "/f";
    assert NoOccurrence(inner) by {
      forall i: nat | i < |inner| ensures !Occurs(inner, i) { }
    }
    assert NoOccurrence("d") by {
      forall i: nat | i < 1 ensures !Occurs("d", i) { }
    }
    RemoveFirst(inner, []);
    assert RemoveAll(inner + SUFFIX) == inner by {
      assert inner + SUFFIX + [] == inner + SUFFIX;
    }
    RemoveFirst("d", inner + SUFFIX);
    assert "d" + SUFFIX + (inner + SUFFIX) == "d.cr/f.cr";
  }

  /** The left-to-right scan can leave a ".cr" suffix behind: the output is itself a container name. */
  lemma RemovalCanLeaveSuffix()
    ensures DecryptedName(".c.crr.cr") == ".cr"
    ensures EndsWith(DecryptedName(".c.crr.cr"), SUFFIX)
  {
    var head: string := ".c";
    var tail: string := "r";
    assert NoOccurrence(head) by {
      forall i: nat | i < |head| ensures !Occurs(head, i) { }
    }
    assert NoOccurrence(tail) by {
      forall i: nat | i < |tail| ensures !Occurs(tail, i) { }
    }
    RemoveFirst(tail, []);
    assert RemoveAll(tail + SUFFIX) == tail by {
      assert tail + SUFFIX + [] == tail + SUFFIX;
    }
    RemoveFirst(head, tail + SUFFIX);
    assert head + SUFFIX + (tail + SUFFIX) == ".c.crr.cr";
    assert head + tail == ".cr";
  }

  /** Filtering is idempotent: a container is never re-encrypted, and always a decryption candidate. */
  lemma EncryptedNameFilters(path: Path, script: Path)
    ensures EncryptSkips(EncryptedName(path), script)
    ensures !DecryptSkips(EncryptedName(path))
  {
  }
}
