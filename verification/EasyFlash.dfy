/** The key-value store on top of the filesystem: each key is a file of its own, named by the
    key with two characters escaped. */
module EasyFlash {
  import opened Octets
  import opened Wrappers

  type Key = seq<Octet>

  const BRACE: Octet := 0x7d   // '}'
  const SLASH: Octet := 0x2f   // '/'
  const DOT: Octet := 0x2e     // '.'
  const NUL: Octet := 0

  /** With bit 0x20 inverted. */
  function Flip(b: Octet): (r: Octet) {
    var c: int := b;
    if c / 0x20 % 2 == 1 then c - 0x20 else c + 0x20
  }

  // ---- Escaping ----

  function EscapeByte(b: Octet): seq<Octet> { if b == BRACE || b == SLASH then [BRACE, Flip(b)] else [b] }

  function Escape(key: Key): seq<Octet> {
    if key == [] then [] else EscapeByte(key[0]) + Escape(key[1..])
  }

  /** A C string reads as NUL behind its end. */
  function At(s: seq<Octet>, i: nat): Octet { if i < |s| then s[i] else NUL }

  function Unescape(name: seq<Octet>): Key
    decreases |name|
  {
    if name == [] then []
    else if name[0] == BRACE then [Flip(At(name, 1))] + Unescape(if |name| > 1 then name[2..] else [])
    else [name[0]] + Unescape(name[1..])
  }

  lemma FlipTwice(b: Octet)
    ensures Flip(Flip(b)) == b
  {
  }

  /** Unescaping undoes escaping. */
  lemma {:induction false} RoundTrip(key: Key)
    ensures Unescape(Escape(key)) == key
  {
    if key == [] {
    } else {
      var e, rest := EscapeByte(key[0]), Escape(key[1..]);
      RoundTrip(key[1..]);
      FlipTwice(key[0]);
      assert (e + rest)[|e|..] == rest;
    }
  }

  lemma Injective(a: Key, b: Key)
    requires Escape(a) == Escape(b)
    ensures a == b
  {
    RoundTrip(a);
    RoundTrip(b);
  }

  /** An escaped key is a single path component. */
  lemma {:induction false} NoSlash(key: Key)
    ensures SLASH !in Escape(key)
  {
    if key == [] {
    } else {
      NoSlash(key[1..]);
    }
  }

  lemma {:induction false} NoNul(key: Key)
    requires NUL !in key
    ensures NUL !in Escape(key)
  {
    if key == [] {
    } else {
      NoNul(key[1..]);
    }
  }

  // ---- The two passes over a key ----

  /** Writes prefix, slash and escaped key into a buffer, or only returns the length that they
      would have if they do not fit. */
  method Key2Path(buf: array<Octet>, prefix: seq<Octet>, key: Key) returns (n: nat)
    requires buf.Length > 0
    modifies buf
    ensures n == |prefix| + 1 + |Escape(key)|
    ensures n > buf.Length - 1 ==> buf[..] == old(buf[..])
    ensures n <= buf.Length - 1 ==>
              buf[..n] == prefix + [SLASH] + Escape(key) && buf[n] == NUL
  {
    // what prefix, slash and escaped key take
    var i, j: nat := |prefix| + 1, 0;
    assert key[0..] == key;
    while j < |key|
      invariant j <= |key| && i + |Escape(key[j..])| == |prefix| + 1 + |Escape(key)|
      invariant buf[..] == old(buf[..])
    {
      assert key[j..][1..] == key[j + 1..];
      i := i + if key[j] == BRACE || key[j] == SLASH then 2 else 1;
      j := j + 1;
    }
    assert key[j..] == [];
    // leaves no room for the end of the string
    if i > buf.Length - 1 {
      return i;
    }
    forall k | 0 <= k < |prefix| { buf[k] := prefix[k]; }
    buf[|prefix|] := SLASH;
    assert buf[..|prefix| + 1] == prefix + [SLASH];
    n := EscapeInto(buf, |prefix| + 1, key);
    assert buf[..n] == buf[..|prefix| + 1] + buf[|prefix| + 1..n];
    buf[n] := NUL;
  }

  lemma EscapeNext(key: Key, j: nat)
    requires j < |key|
    ensures Escape(key[j..]) == EscapeByte(key[j]) + Escape(key[j + 1..])
  {
    assert key[j..][1..] == key[j + 1..];
  }

  method EscapeInto(buf: array<Octet>, from: nat, key: Key) returns (n: nat)
    requires from + |Escape(key)| <= buf.Length
    modifies buf
    ensures n == from + |Escape(key)| && buf[from..n] == Escape(key)
    ensures buf[..from] == old(buf[..from]) && buf[n..] == old(buf[n..])
  {
    hide EscapeByte, Escape, Flip;
    var i: nat, j: nat := from, 0;
    assert key[0..] == key && buf[from..from] == [];
    while j < |key|
      invariant j <= |key| && from <= i && i + |Escape(key[j..])| == from + |Escape(key)|
      invariant buf[from..i] + Escape(key[j..]) == Escape(key)
      invariant buf[..from] == old(buf[..from])
      invariant buf[from + |Escape(key)|..] == old(buf[from + |Escape(key)|..])
    {
      EscapeNext(key, j);
      Escaped(key[j]);
      ghost var front := buf[..i];
      ghost var done := buf[from..i];
      assert done == front[from..];
      i := PutEscaped(buf, i, key[j], from + |Escape(key)|);
      assert buf[from..i] == buf[..i][from..] == done + EscapeByte(key[j]);
      assert buf[..from] == buf[..i][..from] == front[..from];
      assert done + EscapeByte(key[j]) + Escape(key[j + 1..]) == done + (EscapeByte(key[j]) + Escape(key[j + 1..]));
      j := j + 1;
    }
    EscapeEnd(key[j..]);
    assert buf[from..i] + [] == buf[from..i];
    n := i;
  }

  lemma EscapeEnd(key: Key)
    requires key == []
    ensures Escape(key) == []
  {
  }

  method PutEscaped(buf: array<Octet>, i: nat, b: Octet, ghost end: nat) returns (i': nat)
    requires i + |EscapeByte(b)| <= end <= buf.Length
    modifies buf
    ensures i' == i + |EscapeByte(b)|
    ensures buf[..i'] == old(buf[..i]) + EscapeByte(b) && buf[end..] == old(buf[end..])
  {
    hide Flip;
    if b == BRACE || b == SLASH {
      buf[i], buf[i + 1] := BRACE, Flip(b);
      i' := i + 2;
    } else {
      buf[i] := b;
      i' := i + 1;
    }
  }

  lemma Escaped(b: Octet)
    ensures EscapeByte(b) == if b == BRACE || b == SLASH then [BRACE, Flip(b)] else [b]
  {
  }

  /** Writes the key that a name stands for into a buffer, or only returns its length. */
  method Path2Key(buf: array<Octet>, name: seq<Octet>) returns (n: nat)
    requires buf.Length > 0
    modifies buf
    ensures n == |Unescape(name)|
    ensures n > buf.Length - 1 ==> buf[..] == old(buf[..])
    ensures n <= buf.Length - 1 ==> buf[..n] == Unescape(name) && buf[n] == NUL
  {
    hide Unescape, Flip;
    var i, j: nat := 0, 0;
    assert name[0..] == name;
    while j < |name|
      invariant i + |Unescape(Rest(name, j))| == |Unescape(name)| && buf[..] == old(buf[..])
    {
      RestNext(name, j);
      i := i + 1;
      // an escape takes two characters
      j := j + if name[j] == BRACE then 2 else 1;
    }
    UnescapeEnd(Rest(name, j));
    // leaves no room for the end of the string
    if i > buf.Length - 1 {
      return i;
    }
    ghost var whole := Unescape(name);
    i, j := 0, 0;
    assert buf[..0] + whole == whole;
    while j < |name|
      invariant i <= |whole| < buf.Length && buf[..i] + Unescape(Rest(name, j)) == whole
    {
      RestNext(name, j);
      ghost var done := buf[..i];
      var c := if name[j] == BRACE then Flip(At(name, j + 1)) else name[j];
      assert whole == done + [c] + Unescape(Rest(name, j + if name[j] == BRACE then 2 else 1));
      buf[i] := c;
      assert buf[..i + 1] == done + [c];
      i := i + 1;
      j := j + if name[j] == BRACE then 2 else 1;
    }
    UnescapeEnd(Rest(name, j));
    assert buf[..i] + [] == buf[..i];
    buf[i] := NUL;
    n := i;
  }

  lemma UnescapeEnd(name: seq<Octet>)
    requires name == []
    ensures Unescape(name) == []
  {
  }

  function Rest(s: seq<Octet>, j: nat): seq<Octet> { if j <= |s| then s[j..] else [] }

  lemma RestNext(name: seq<Octet>, j: nat)
    requires j < |name|
    ensures
      Unescape(Rest(name, j)) ==
        if name[j] == BRACE then [Flip(At(name, j + 1))] + Unescape(Rest(name, j + 2))
        else [name[j]] + Unescape(Rest(name, j + 1))
  {
    var r := name[j..];
    if |r| > 1 { assert r[2..] == Rest(name, j + 2); }
    assert r[1..] == Rest(name, j + 1);
  }

  // ---- Parts of a value ----

  /** What a read of `len` bytes from `off` on gets of a value. */
  function Window(v: seq<Octet>, off: nat, len: nat): (r: seq<Octet>)
    ensures |r| <= len && forall i :: 0 <= i < |r| ==> off + i < |v| && r[i] == v[off + i]
    ensures |r| < len ==> off + |r| >= |v|
  {
    if off >= |v| then [] else if |v| - off < len then v[off..] else v[off..off + len]
  }

  // ---- The store ----

  const PREFIX: seq<Octet> := [0x2f, 0x5f, 0x65, 0x66, 0x34, 0x5f, 0x6b, 0x76, 0x73, 0x5f]  // "/_ef4_kvs_"
  const NAME_MAX := 64

  datatype Error = NoErr | NameErr | WriteErr | ArgErr

  /** The path of the key, with its end, fits the path buffer. */
  predicate Fits(key: Key) { |PREFIX| + 1 + |Escape(key)| <= NAME_MAX - 1 }

  /** Paths can end in these names, but they do not name files. */
  predicate IsFileName(name: seq<Octet>) { name != [] && name != [DOT] && name != [DOT, DOT] }

  predicate Storable(key: Key) { Fits(key) && IsFileName(Escape(key)) }

  /** Keys whose path is that of the namespace directory itself. */
  predicate NamesDirectory(key: Key) { key == [] || key == [DOT] }

  lemma DirectoryFits(key: Key)
    ensures NamesDirectory(key) <==> !IsFileName(Escape(key)) && Escape(key) != [DOT, DOT]
    ensures NamesDirectory(key) ==> Fits(key)
  {
    assert Escape([]) == [] && [DOT][1..] == [] && Escape([DOT]) == [DOT];
    if Escape(key) == [] || Escape(key) == [DOT] {
      if Escape(key) == [] { Injective(key, []); } else { Injective(key, [DOT]); }
    }
  }

  class Store {
    // whether the namespace directory exists, and its files by name
    var present: bool
    var files: map<seq<Octet>, seq<Octet>>
    const pathBuffer: array<Octet>

    constructor ()
      ensures Valid() && present && files == map[]
    {
      present, files := true, map[];
      pathBuffer := new Octet[NAME_MAX](_ => 0);
    }

    ghost predicate Valid()
      reads this
    {
      && pathBuffer.Length == NAME_MAX && (files != map[] ==> present)
      && forall n :: n in files ==> Storable(Unescape(n)) && Escape(Unescape(n)) == n
    }

    /** What is stored under a key. */
    ghost function Get(key: Key): Option<seq<Octet>>
      reads this
    {
      if Escape(key) in files then Some(files[Escape(key)]) else None
    }

    /** The file name that a key leads to, if its path fits. */
    method PathOf(key: Key) returns (name: Option<seq<Octet>>)
      requires Valid()
      modifies pathBuffer
      ensures name == if Fits(key) then Some(Escape(key)) else None
    {
      hide Escape;
      var n := Key2Path(pathBuffer, PREFIX, key);
      if n >= pathBuffer.Length {
        return None;
      }
      // the last component of the path
      name := Some(pathBuffer[|PREFIX| + 1..n]);
      assert pathBuffer[|PREFIX| + 1..n] == pathBuffer[..n][|PREFIX| + 1..] == Escape(key);
    }

    method SetEnvBlob(key: Key, value: seq<Octet>) returns (r: Error)
      requires Valid()
      modifies this`files, pathBuffer
      ensures Valid()
      ensures r == if value == [] then ArgErr else if !Fits(key) then NameErr
                   else if !IsFileName(Escape(key)) || !present then WriteErr else NoErr
      ensures r != NoErr ==> files == old(files)
      ensures r == NoErr ==> Get(key) == Some(value)
      ensures r == NoErr ==> forall k :: k != key ==> Get(k) == old(Get(k))
    {
      hide Escape, Unescape;
      if value == [] {
        return ArgErr;
      }
      var name := PathOf(key);
      if name.None? {
        return NameErr;
      }
      if !IsFileName(name.value) || !present {
        // a directory cannot be opened as a file, nor a file be created in one that is gone
        return WriteErr;
      }
      RoundTrip(key);
      forall k | k != key ensures Escape(k) != Escape(key) {
        if Escape(k) == Escape(key) { Injective(k, key); }
      }
      files := files[name.value := value];
      r := NoErr;
    }

    /** Reads at most bufLen bytes of a value, from an offset on, and how long it is. Seeking to
        a negative offset fails, and then the length is not reported either. */
    method GetEnvBlob(key: Key, bufLen: nat, offset: int) returns (data: seq<Octet>, saved: nat)
      requires Valid()
      modifies pathBuffer
      ensures
        match Get(key)
        case None => data == [] && saved == 0
        case Some(v) =>
          if bufLen > 0 && offset < 0 then data == [] && saved == 0
          else saved == |v| && data == (if bufLen > 0 then Window(v, offset, bufLen) else [])
    {
      hide Escape, Unescape;
      data, saved := [], 0;
      var name := PathOf(key);
      RoundTrip(key);
      if name.Some? && name.value in files {
        var v := files[name.value];
        if bufLen > 0 {
          if offset < 0 { return; }
          data := Window(v, offset, bufLen);
        }
        saved := |v|;
      }
    }

    /** Deletes a key. One that leads to the namespace directory deletes that, if it is empty. */
    method DelEnv(key: Key) returns (r: Error)
      requires Valid()
      modifies this`files, this`present, pathBuffer
      ensures Valid() && r == (if Fits(key) then NoErr else NameErr)
      ensures Get(key) == None && forall k :: k != key ==> Get(k) == old(Get(k))
      ensures files == old(files) - {Escape(key)}
      ensures present == (old(present) && !(NamesDirectory(key) && old(files) == map[]))
    {
      RoundTrip(key);
      NoFile(key);
      DirectoryFits(key);
      hide Escape, Unescape;
      forall k | k != key ensures Escape(k) != Escape(key) {
        if Escape(k) == Escape(key) { Injective(k, key); }
      }
      var name := PathOf(key);
      if name.None? {
        return NameErr;
      }
      if IsFileName(name.value) {
        files := files - {name.value};
      } else if name.value != [DOT, DOT] && files == map[] {
        // the path ends at the directory; two dots lead to the root, which stays
        present := false;
      }
      r := NoErr;
    }

    /** No file has a name that leads elsewhere. */
    lemma NoFile(key: Key)
      requires Valid()
      ensures Escape(key) in files ==> IsFileName(Escape(key))
    {
    }

    /** Sets up the store: creates the namespace directory if it is not there. */
    method Init()
      requires Valid()
      modifies this`present
      ensures Valid() && present
    {
      present := true;
    }

    /** All keys, one for each file, in the order of the directory. */
    method Keys() returns (keys: seq<Key>)
      requires Valid()
      ensures forall k :: k in keys <==> Get(k).Some?
      ensures forall i, j :: 0 <= i < j < |keys| ==> keys[i] != keys[j]
    {
      keys := [];
      var rest := files.Keys;
      while rest != {}
        invariant rest <= files.Keys
        invariant forall k :: k in keys <==> Get(k).Some? && Escape(k) !in rest
        invariant forall i, j :: 0 <= i < j < |keys| ==> keys[i] != keys[j]
        decreases |rest|
      {
        hide Escape, Unescape;
        var n :| n in rest;
        var buf := new Octet[NAME_MAX](_ => 0);
        KeyFits(n);
        var len := Path2Key(buf, n);
        var key := buf[..len];
        forall k | Escape(k) == n ensures k == key { RoundTrip(k); }
        rest := rest - {n};
        keys := keys + [key];
      }
    }

    lemma KeyFits(n: seq<Octet>)
      requires Valid() && n in files
      ensures |Unescape(n)| < NAME_MAX && Escape(Unescape(n)) == n
    {
      Longer(Unescape(n));
    }
  }

  lemma {:induction false} Longer(key: Key)
    ensures |key| <= |Escape(key)|
  {
    if key == [] {
    } else {
      Longer(key[1..]);
    }
  }
}
