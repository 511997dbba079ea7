/** Reading a TLS Hello: the record and handshake headers, then the extensions. */
module TlsHello {
  import opened Serial
  import opened Dissection

  const SNI_MAX: nat := 48

  function VersionName(version: int): string {
    if version == 0x0300 then "SSL3.0"
    else if version == 0x0301 then "TLS1.0"
    else if version == 0x0302 then "TLS1.1"
    else if version == 0x0303 then "TLS1.2"
    else if version == 0x0304 then "TLS1.3"
    else "TLS?"
  }

  /** How far the bytes identify a Hello; `at` is where its extensions block starts. */
  datatype Header = NotTls | OtherHandshake(recordVersion: int) | Hello(client: bool, version: int, at: nat)

  function ReadHeader(d: seq<byte>): (h: Header)
    ensures h.Hello? ==> h.at <= |d|
  {
    if |d| < 5 || d[0] != 0x16 || d[1] != 0x03 || |d| < 6 then NotTls
    else if d[5] != 1 && d[5] != 2 then OtherHandshake(U16(d, 1))
    else if |d| < 44 || |d| < 44 + (d[43] as int) then NotTls
    else AfterSession(d, 44 + (d[43] as int))
  }

  function AfterSession(d: seq<byte>, p: nat): (h: Header)
    requires 44 <= p <= |d|
    ensures h.Hello? ==> h.at <= |d|
  {
    if d[5] == 1 then
      if |d| < p + 2 || |d| < p + 2 + U16(d, p) then NotTls
      else
        var q := p + 2 + U16(d, p);
        if |d| < q + 1 || |d| < q + 1 + (d[q] as int) then NotTls
        else Hello(true, U16(d, 9), q + 1 + (d[q] as int))
    else if |d| < p + 3 then NotTls
    else Hello(false, U16(d, 9), p + 3)
  }

  /** The host name in a server_name extension, or nothing if it is malformed. */
  function ServerName(ext: seq<byte>): seq<byte> {
    if |ext| < 5 || ext[2] != 0 || |ext| < 5 + U16(ext, 3) then [] else ext[5..5 + U16(ext, 3)]
  }

  /** The highest version up to TLS 1.3 among the next `count` entries, if above `best`. */
  function MaxVersion(ext: seq<byte>, p: nat, count: nat, best: int): int
    decreases count
  {
    if count == 0 || |ext| < p + 2 then best
    else MaxVersion(ext, p + 2, count - 1, if best < U16(ext, p) <= 0x0304 then U16(ext, p) else best)
  }

  function SupportedVersion(ext: seq<byte>, best: int): int {
    if |ext| < 1 then best else MaxVersion(ext, 1, ext[0] / 2, best)
  }

  /** Entry `i` of the versions from `p` on is there. */
  predicate Offered(ext: seq<byte>, p: nat, count: nat, i: nat) {
    i < count && p + 2 * i + 2 <= |ext|
  }

  /** `v` is offered, up to TLS 1.3, or it is `best`; and neither `best` nor anything so offered is higher. */
  ghost predicate Highest(ext: seq<byte>, p: nat, count: nat, best: int, v: int) {
    && v >= best
    && (v == best || exists i: nat :: Offered(ext, p, count, i) && v == U16(ext, p + 2 * i) <= 0x0304)
    && (forall i: nat | Offered(ext, p, count, i) && U16(ext, p + 2 * i) <= 0x0304 :: U16(ext, p + 2 * i) <= v)
  }

  lemma {:induction false} MaxIsHighest(ext: seq<byte>, p: nat, count: nat, best: int)
    ensures Highest(ext, p, count, best, MaxVersion(ext, p, count, best))
    decreases count
  {
    if count > 0 && p + 2 <= |ext| {
      var better := if best < U16(ext, p) <= 0x0304 then U16(ext, p) else best;
      MaxIsHighest(ext, p + 2, count - 1, better);
      HighestOfMore(ext, p, count, best, better, MaxVersion(ext, p, count, best));
    }
  }

  lemma HighestOfMore(ext: seq<byte>, p: nat, count: nat, best: int, better: int, v: int)
    requires count > 0 && p + 2 <= |ext| && Highest(ext, p + 2, count - 1, better, v)
    requires better == if best < U16(ext, p) <= 0x0304 then U16(ext, p) else best
    ensures Highest(ext, p, count, best, v)
  {
    assert Offered(ext, p, count, 0) && p + 2 * 0 == p;
    if i: nat :| Offered(ext, p + 2, count - 1, i) && v == U16(ext, p + 2 + 2 * i) <= 0x0304 {
      assert Offered(ext, p, count, i + 1) && p + 2 * (i + 1) == p + 2 + 2 * i;
    }
    forall i: nat | Offered(ext, p, count, i) && U16(ext, p + 2 * i) <= 0x0304
      ensures U16(ext, p + 2 * i) <= v
    {
      if i > 0 {
        assert Offered(ext, p + 2, count - 1, i - 1) && p + 2 + 2 * (i - 1) == p + 2 * i;
      }
    }
  }

  datatype Found = Found(sni: seq<byte>, version: int)

  /** What one extension adds: the first non-empty server name counts, and the highest version. */
  function Note(f: Found, kind: int, ext: seq<byte>): Found {
    if kind == 0x0000 && f.sni == [] then f.(sni := ServerName(ext))
    else if kind == 0x002B then f.(version := SupportedVersion(ext, f.version))
    else f
  }

  datatype Extension = Extension(kind: int, body: seq<byte>)

  /** The complete extensions of a block, in order. */
  function ExtensionsOf(s: seq<byte>): seq<Extension>
    decreases |s|
  {
    if |s| < 4 || U16(s, 2) > |s| - 4 then []
    else [Extension(U16(s, 0), s[4..4 + U16(s, 2)])] + ExtensionsOf(s[4 + U16(s, 2)..])
  }

  /** The whole list, noted one after the other. */
  function NoteAll(f: Found, exts: seq<Extension>): Found
    decreases |exts|
  {
    if exts == [] then f else NoteAll(Note(f, exts[0].kind, exts[0].body), exts[1..])
  }

  /** The part of the extensions block that has been captured. */
  function Block(d: seq<byte>, at: nat): seq<byte>
    requires at + 2 <= |d|
  {
    Upto(d[at + 2..], U16(d, at))
  }

  function Upto(s: seq<byte>, n: nat): seq<byte> {
    if n < |s| then s[..n] else s
  }

  function FoundIn(d: seq<byte>, at: nat): Found
    requires at + 2 <= |d|
  {
    NoteAll(Found([], 0), ExtensionsOf(Block(d, at)))
  }

  function Report(client: bool, version: int, f: Found): AppInfo {
    var shown := VersionName(if f.version != 0 then f.version else version);
    if f.sni != [] then AppInfo(Tls, shown + " sni=" + Sanitized(f.sni, SNI_MAX), true)
    else AppInfo(Tls, shown + (if client then " client-hello" else " server-hello"), !client)
  }

  function Dissected(d: seq<byte>): Option<AppInfo> {
    match ReadHeader(d)
    case NotTls => None
    case OtherHandshake(v) => Some(AppInfo(Tls, VersionName(v), false))
    case Hello(client, version, at) =>
      if |d| < at + 2 then Some(AppInfo(Tls, VersionName(version), false))
      else Some(Report(client, version, FoundIn(d, at)))
  }

  /** Reads the record header up to the extensions block; the reader is left there for a Hello. */
  method ParseHeader(r: ByteReader) returns (h: Header)
    requires r.Valid() && r.pos == 0
    modifies r
    ensures r.Valid() && h == ReadHeader(r.data)
    ensures h.Hello? ==> r.pos == h.at
  {
    var ok, contentType := r.ReadU8();
    if !ok { return NotTls; }
    var recordVersion, recordLen;
    ok, recordVersion := r.ReadU16();
    if !ok { return NotTls; }
    ok, recordLen := r.ReadU16();
    if !ok || contentType != 0x16 || recordVersion / 256 != 0x03 { return NotTls; }
    var kind;
    ok, kind := r.ReadU8();
    if !ok { return NotTls; }
    if kind != 1 && kind != 2 { return OtherHandshake(recordVersion); }
    var lenHi, lenLo, version, sessionLen;
    ok, lenHi := r.ReadU8();
    if !ok { return NotTls; }
    ok, lenLo := r.ReadU16();
    if !ok { return NotTls; }
    ok, version := r.ReadU16();
    if !ok { return NotTls; }
    ok := r.Skip(32);
    if !ok { return NotTls; }
    ok, sessionLen := r.ReadU8();
    if !ok { return NotTls; }
    ok := r.Skip(sessionLen);
    if !ok { return NotTls; }
    h := ParseChoices(r, kind == 1, version);
  }

  method ParseChoices(r: ByteReader, client: bool, version: int) returns (h: Header)
    requires r.Valid() && r.pos >= 44 && client == (r.data[5] == 1) && version == U16(r.data, 9)
    modifies r
    ensures r.Valid() && h == AfterSession(r.data, old(r.pos))
    ensures h.Hello? ==> r.pos == h.at
  {
    var ok;
    if client {
      var cipherLen, compressionLen;
      ok, cipherLen := r.ReadU16();
      if !ok { return NotTls; }
      ok := r.Skip(cipherLen);
      if !ok { return NotTls; }
      ok, compressionLen := r.ReadU8();
      if !ok { return NotTls; }
      ok := r.Skip(compressionLen);
      if !ok { return NotTls; }
    } else {
      ok := r.Skip(2);
      if !ok { return NotTls; }
      ok := r.Skip(1);
      if !ok { return NotTls; }
    }
    h := Hello(client, version, r.pos);
  }

  method ParseServerName(ext: seq<byte>) returns (sni: seq<byte>)
    ensures sni == ServerName(ext)
  {
    var sub := new ByteReader(ext);
    var ok, listLen := sub.ReadU16();
    if !ok { return []; }
    var nameType, nameLen;
    ok, nameType := sub.ReadU8();
    if !ok { return []; }
    ok, nameLen := sub.ReadU16();
    if !ok || nameType != 0 { return []; }
    ok, sni := sub.Read(nameLen);
    if !ok { sni := []; }
  }

  method ParseVersions(ext: seq<byte>, best: int) returns (version: int)
    ensures version == SupportedVersion(ext, best)
    ensures if |ext| < 1 then version == best else Highest(ext, 1, ext[0] / 2, best, version)
  {
    if |ext| >= 1 { MaxIsHighest(ext, 1, ext[0] / 2, best); }
    version := best;
    var sub := new ByteReader(ext);
    var ok, listLen := sub.ReadU8();
    if ok {
      var i := 0;
      while i < listLen / 2
        invariant i <= listLen / 2 && sub.Valid() && sub.data == ext
        invariant MaxVersion(ext, sub.pos, listLen / 2 - i, version) == SupportedVersion(ext, best)
      {
        var more, v := sub.ReadU16();
        if !more { break; }
        if v > version && v <= 0x0304 { version := v; }
        i := i + 1;
      }
    }
  }

  lemma NoteFirst(f: Found, s: seq<byte>)
    requires |s| >= 4 && U16(s, 2) <= |s| - 4
    ensures var len := U16(s, 2);
            NoteAll(f, ExtensionsOf(s)) == NoteAll(Note(f, U16(s, 0), s[4..4 + len]), ExtensionsOf(s[4 + len..]))
  {
    var len := U16(s, 2);
    var first, rest := Extension(U16(s, 0), s[4..4 + len]), ExtensionsOf(s[4 + len..]);
    assert ExtensionsOf(s) == [first] + rest;
    assert ([first] + rest)[1..] == rest;
  }

  lemma NoteNone(f: Found, s: seq<byte>)
    requires |s| < 4 || U16(s, 2) > |s| - 4
    ensures NoteAll(f, ExtensionsOf(s)) == f
  {
  }

  lemma Reslice(d: seq<byte>, p: nat, n: nat, len: nat)
    requires 4 + len <= n && p + n <= |d|
    ensures d[p..p + n][4..4 + len] == d[p + 4..p + 4 + len]
    ensures d[p..p + n][4 + len..] == d[p + 4 + len..p + n]
  {
    var s := d[p..p + n];
    assert forall i | 0 <= i < n :: s[i] == d[p + i];
    var a, b := s[4..4 + len], d[p + 4..p + 4 + len];
    forall i | 0 <= i < len ensures a[i] == b[i] {
      assert s[4 + i] == d[p + (4 + i)];
    }
  }

  method ParseExtensions(r: ByteReader, extensionsLen: nat) returns (f: Found)
    requires r.Valid()
    modifies r
    ensures f == NoteAll(Found([], 0), ExtensionsOf(Upto(r.data[old(r.pos)..], extensionsLen)))
  {
    f := Found([], 0);
    var remaining := if extensionsLen < |r.data| - r.pos then extensionsLen else |r.data| - r.pos;
    ghost var rest := Upto(r.data[r.pos..], extensionsLen);
    ghost var goal := NoteAll(f, ExtensionsOf(rest));
    while remaining >= 4
      invariant r.Valid() && 0 <= remaining && r.pos + remaining <= |r.data|
      invariant rest == r.data[r.pos..r.pos + remaining]
      invariant NoteAll(f, ExtensionsOf(rest)) == goal
      decreases remaining
    {
      var ok, kind, ext := ParseExtension(r, remaining);
      if !ok {
        NoteNone(f, rest);
        return;
      }
      NoteFirst(f, rest);
      Reslice(r.data, r.pos - 4 - |ext|, remaining, |ext|);
      f := NoteExtension(f, kind, ext);
      remaining := remaining - 4 - |ext|;
      rest := rest[4 + |ext|..];
    }
    NoteNone(f, rest);
  }

  /** The body of the loop up to its breaks: the next extension, if all of it is there. */
  method ParseExtension(r: ByteReader, remaining: nat) returns (ok: bool, kind: int, ext: seq<byte>)
    requires r.Valid() && remaining >= 4 && r.pos + remaining <= |r.data|
    modifies r
    ensures r.Valid()
    ensures var s := r.data[old(r.pos)..old(r.pos) + remaining];
            && (ok <==> U16(s, 2) <= |s| - 4)
            && (ok ==> kind == U16(s, 0) && ext == s[4..4 + U16(s, 2)] && r.pos == old(r.pos) + 4 + |ext|)
  {
    ghost var start := r.pos;
    var len;
    ok, kind := r.ReadU16();
    if !ok { return false, 0, []; }
    ok, len := r.ReadU16();
    if !ok { return false, 0, []; }
    if len > remaining - 4 { return false, 0, []; }
    Reslice(r.data, start, remaining, len);
    ok, ext := r.Read(len);
  }

  method NoteExtension(f: Found, kind: int, ext: seq<byte>) returns (g: Found)
    ensures g == Note(f, kind, ext)
  {
    g := f;
    if kind == 0x0000 && |f.sni| == 0 {
      var sni := ParseServerName(ext);
      g := f.(sni := sni);
    } else if kind == 0x002B {
      var version := ParseVersions(ext, f.version);
      g := f.(version := version);
    }
  }

  method DissectTls(data: seq<byte>) returns (out: Option<AppInfo>)
    ensures out == Dissected(data)
  {
    var r := new ByteReader(data);
    var h := ParseHeader(r);
    if h.NotTls? { return None; }
    if h.OtherHandshake? { return Some(AppInfo(Tls, VersionName(h.recordVersion), false)); }
    var ok, extensionsLen := r.ReadU16();
    if !ok { return Some(AppInfo(Tls, VersionName(h.version), false)); }
    var f := ParseExtensions(r, extensionsLen);
    var summary := VersionName(if f.version != 0 then f.version else h.version);
    if |f.sni| > 0 {
      var name := Sanitize(f.sni, SNI_MAX);
      return Some(AppInfo(Tls, summary + " sni=" + name, true));
    }
    return Some(AppInfo(Tls, summary + (if h.client then " client-hello" else " server-hello"), !h.client));
  }
}

/** The reader inverts the builder, and what it finds in part of a Hello it finds in all of it. */
module TlsTheorems {
  import opened Serial
  import opened Dissection
  import opened TlsHello

  /** The server name a buffer yields, empty if none. */
  function SniOf(d: seq<byte>): seq<byte> {
    match ReadHeader(d)
    case Hello(_, _, at) => if |d| < at + 2 then [] else FoundIn(d, at).sni
    case _ => []
  }

  // ----------------------------------------------------------------- stability

  lemma HeaderStable(d: seq<byte>, n: nat)
    requires n <= |d| && ReadHeader(d[..n]).Hello?
    ensures ReadHeader(d) == ReadHeader(d[..n])
  {
    var e := d[..n];
    assert forall i | 0 <= i < n :: e[i] == d[i];
  }

  /** A whole extension is the same in the bytes and in a prefix that holds it. */
  lemma CutSlices(s: seq<byte>, n: nat, len: nat)
    requires 4 + len <= n <= |s|
    ensures U16(s, 0) == U16(s[..n], 0) && U16(s, 2) == U16(s[..n], 2)
    ensures s[..n][4..4 + len] == s[4..4 + len]
    ensures s[..n][4 + len..] == s[4 + len..][..n - 4 - len]
  {
  }

  /** Cutting the bytes short only cuts the list of complete extensions short. */
  lemma {:induction false} ExtensionsStable(s: seq<byte>, n: nat)
    requires n <= |s|
    ensures ExtensionsOf(s[..n]) <= ExtensionsOf(s)
    decreases n
  {
    var e := s[..n];
    if n >= 4 && U16(e, 2) <= n - 4 {
      var len := U16(e, 2);
      var t, m := s[4 + len..], n - 4 - len;
      CutSlices(s, n, len);
      ExtensionsStable(t, m);
    }
  }

  lemma {:induction false} NoteAllAppend(f: Found, a: seq<Extension>, b: seq<Extension>)
    ensures NoteAll(f, a + b) == NoteAll(NoteAll(f, a), b)
    decreases |a|
  {
    if a == [] {
      assert a + b == b;
    } else {
      assert (a + b)[1..] == a[1..] + b;
      NoteAllAppend(Note(f, a[0].kind, a[0].body), a[1..], b);
    }
  }

  lemma {:induction false} NoteAllKeepsSni(f: Found, exts: seq<Extension>)
    ensures f.sni != [] ==> NoteAll(f, exts).sni == f.sni
    ensures f.sni == [] && (forall e | e in exts :: e.kind != 0) ==> NoteAll(f, exts).sni == []
    decreases |exts|
  {
    if exts != [] {
      assert exts[0] in exts && forall x | x in exts[1..] :: x in exts;
      NoteAllKeepsSni(Note(f, exts[0].kind, exts[0].body), exts[1..]);
    }
  }

  /** For any bytes at all: a server name read from a prefix is the one the full bytes yield. */
  lemma SniStable(d: seq<byte>, n: nat)
    requires n <= |d| && SniOf(d[..n]) != []
    ensures SniOf(d) == SniOf(d[..n])
  {
    HeaderStable(d, n);
    var at := ReadHeader(d).at;
    BlockStable(d, n, at);
    assert Block(d, at)[..|Block(d[..n], at)|] == Block(d[..n], at);
    ExtensionsStable(Block(d, at), |Block(d[..n], at)|);
    NoteAllStable(ExtensionsOf(Block(d[..n], at)), ExtensionsOf(Block(d, at)));
  }

  lemma BlockStable(d: seq<byte>, n: nat, at: nat)
    requires at + 2 <= n <= |d|
    ensures Block(d[..n], at) <= Block(d, at)
  {
    assert d[..n][at + 2..] == d[at + 2..][..n - at - 2];
  }

  lemma NoteAllStable(some: seq<Extension>, all: seq<Extension>)
    requires some <= all && NoteAll(Found([], 0), some).sni != []
    ensures NoteAll(Found([], 0), all).sni == NoteAll(Found([], 0), some).sni
  {
    assert all == some + all[|some|..];
    NoteAllAppend(Found([], 0), some, all[|some|..]);
    NoteAllKeepsSni(NoteAll(Found([], 0), some), all[|some|..]);
  }

  /** A client's bytes are conclusive exactly when they yield a server name, and then say it. */
  lemma ConclusiveIffSni(d: seq<byte>)
    requires |d| > 5 ==> d[5] == 1
    ensures Dissected(d).Some? && Dissected(d).value.conclusive <==> SniOf(d) != []
    ensures SniOf(d) != [] ==>
            Dissected(d).Some? && Dissected(d).value.proto == Tls &&
            EndsWith(Dissected(d).value.summary, " sni=" + Sanitized(SniOf(d), SNI_MAX))
  {
    if SniOf(d) != [] {
      var h := ReadHeader(d);
      var f := FoundIn(d, h.at);
      var shown := VersionName(if f.version != 0 then f.version else h.version);
      var tail := " sni=" + Sanitized(f.sni, SNI_MAX);
      assert shown + " sni=" + Sanitized(f.sni, SNI_MAX) == shown + tail;
    }
  }

  predicate EndsWith(s: string, tail: string) {
    |tail| <= |s| && s[|s| - |tail|..] == tail
  }

  // ------------------------------------------------------------------- builder

  predicate Encodable(e: Extension) {
    0 <= e.kind < 65536 && |e.body| < 65536
  }

  function EncodeExtension(e: Extension): seq<byte>
    requires Encodable(e)
  {
    Bytes16(e.kind) + Bytes16(|e.body|) + e.body
  }

  function EncodeExtensions(exts: seq<Extension>): seq<byte>
    requires forall e | e in exts :: Encodable(e)
  {
    if exts == [] then []
    else
      assert Encodable(exts[0]);
      EncodeExtension(exts[0]) + EncodeExtensions(exts[1..])
  }

  function ServerNameExtension(name: seq<byte>): Extension
    requires |name| + 5 < 65536
  {
    Extension(0x0000, Bytes16(|name| + 3) + [0] + Bytes16(|name|) + name)
  }

  datatype ClientHello = ClientHello(
    recordMinor: byte,
    version: nat,
    random: seq<byte>,
    session: seq<byte>,
    ciphers: seq<byte>,
    compression: seq<byte>,
    extensions: seq<Extension>)

  ghost predicate Fits(h: ClientHello) {
    && h.version < 65536 && |h.random| == 32 && |h.session| < 256
    && |h.ciphers| < 65536 && |h.compression| < 256
    && (forall e | e in h.extensions :: Encodable(e))
    && |EncodeExtensions(h.extensions)| < 65536
    && 4 + |Body(h)| < 65536
  }

  function Choices(h: ClientHello): seq<byte>
    requires |h.session| < 256 && |h.ciphers| < 65536 && |h.compression| < 256
  {
    [|h.session|] + h.session + Bytes16(|h.ciphers|) + h.ciphers + [|h.compression|] + h.compression
  }

  function Body(h: ClientHello): seq<byte>
    requires h.version < 65536 && |h.session| < 256 && |h.ciphers| < 65536 && |h.compression| < 256
    requires (forall e | e in h.extensions :: Encodable(e)) && |EncodeExtensions(h.extensions)| < 65536
  {
    Bytes16(h.version) + h.random + Choices(h) +
    (Bytes16(|EncodeExtensions(h.extensions)|) + EncodeExtensions(h.extensions))
  }

  /** Record header, handshake header, body. */
  function Encode(h: ClientHello): seq<byte>
    requires Fits(h)
  {
    [0x16, 0x03, h.recordMinor] + Bytes16(4 + |Body(h)|) + [0x01, 0x00] + Bytes16(|Body(h)|) + Body(h)
  }

  /** The list read back is the list that was built. */
  lemma {:induction false} ExtensionsInvert(exts: seq<Extension>)
    requires forall e | e in exts :: Encodable(e)
    ensures ExtensionsOf(EncodeExtensions(exts)) == exts
    decreases |exts|
  {
    if exts != [] {
      assert exts[0] in exts && forall x | x in exts[1..] :: x in exts;
      ExtensionInverts(exts[0], EncodeExtensions(exts[1..]));
      ExtensionsInvert(exts[1..]);
    }
  }

  lemma ExtensionInverts(e: Extension, rest: seq<byte>)
    requires Encodable(e)
    ensures ExtensionsOf(EncodeExtension(e) + rest) == [e] + ExtensionsOf(rest)
  {
    var a, len := EncodeExtension(e), |e.body|;
    var s := a + rest;
    assert s[4..4 + len] == a[4..] == e.body && s[4 + len..] == rest;
    assert U16(s, 0) == U16(a, 0) == e.kind && U16(s, 2) == U16(a, 2) == len;
  }

  /** The header of a built Hello is read back, whatever the lengths of its variable parts. */
  lemma HeaderInverts(h: ClientHello)
    requires Fits(h)
    ensures ReadHeader(Encode(h)) == Hello(true, h.version, 43 + |Choices(h)|)
    ensures Holds(Encode(h), 43 + |Choices(h)|,
                  Bytes16(|EncodeExtensions(h.extensions)|) + EncodeExtensions(h.extensions))
  {
    var d := Encode(h);
    var tail := Bytes16(|EncodeExtensions(h.extensions)|) + EncodeExtensions(h.extensions);
    var fixed := [0x16, 0x03, h.recordMinor] + Bytes16(4 + |Body(h)|) + [0x01, 0x00] + Bytes16(|Body(h)|) +
                 Bytes16(h.version) + h.random;
    assert d == fixed + Choices(h) + tail && |fixed| == 43;
    assert fixed[0] == 0x16 && fixed[1] == 0x03 && fixed[5] == 1 && U16(fixed, 9) == h.version;
    ChoicesInvert(h, d, fixed, tail);
  }

  lemma ChoicesInvert(h: ClientHello, d: seq<byte>, fixed: seq<byte>, tail: seq<byte>)
    requires Fits(h) && |fixed| == 43 && d == fixed + Choices(h) + tail && fixed[5] == 1
    ensures d[43] == |h.session| && 44 + |h.session| <= |d|
    ensures AfterSession(d, 44 + |h.session|) == Hello(true, U16(fixed, 9), 43 + |Choices(h)|)
    ensures Holds(d, 43 + |Choices(h)|, tail)
  {
    var c := Choices(h);
    assert forall i | 0 <= i < |c| :: d[43 + i] == c[i];
    assert forall i | 0 <= i < 43 :: d[i] == fixed[i];
    var p, q := 1 + |h.session|, 3 + |h.session| + |h.ciphers|;
    assert c[0] == |h.session| && c[p] == |h.ciphers| / 256 && c[p + 1] == |h.ciphers| % 256 && c[q] == |h.compression|;
    assert d[43 + p] == c[p] && d[43 + p + 1] == c[p + 1] && d[43 + q] == c[q];
  }

  /** The reader inverts the builder: every field it extracts is a function of what was encoded. */
  lemma DissectInvertsEncode(h: ClientHello)
    requires Fits(h)
    ensures Dissected(Encode(h)) == Some(Report(true, h.version, NoteAll(Found([], 0), h.extensions)))
    ensures SniOf(Encode(h)) == NoteAll(Found([], 0), h.extensions).sni
  {
    HeaderInverts(h);
    BlockInverts(Encode(h), 43 + |Choices(h)|, h.extensions);
  }

  /** An extensions block: its length, then the extensions. */
  lemma BlockInverts(d: seq<byte>, at: nat, exts: seq<Extension>)
    requires (forall e | e in exts :: Encodable(e)) && |EncodeExtensions(exts)| < 65536
    requires Holds(d, at, Bytes16(|EncodeExtensions(exts)|) + EncodeExtensions(exts))
    ensures at + 2 <= |d| && FoundIn(d, at) == NoteAll(Found([], 0), exts)
  {
    var s := EncodeExtensions(exts);
    HoldsSplit(d, at, Bytes16(|s|), s);
    HoldsU16(d, at, |s|);
    assert Block(d, at) == d[at + 2..at + 2 + |s|] == s;
    ExtensionsInvert(exts);
  }

  lemma ServerNameInverts(name: seq<byte>)
    requires |name| + 5 < 65536
    ensures ServerName(ServerNameExtension(name).body) == name
  {
    var b := ServerNameExtension(name).body;
    assert b[2] == 0 && b[3] == |name| / 256 && b[4] == |name| % 256 && b[5..] == name;
  }

  /** For any session id, cipher list, compression list and other extensions around it, the name in
      the one server_name extension is what the reader finds, and it is conclusive. */
  lemma SniRecovered(h: ClientHello, before: seq<Extension>, name: seq<byte>, after: seq<Extension>)
    requires name != [] && |name| + 5 < 65536
    requires h.extensions == before + [ServerNameExtension(name)] + after && Fits(h)
    requires forall e | e in before :: e.kind != 0
    ensures SniOf(Encode(h)) == name
  {
    var e, f := ServerNameExtension(name), NoteAll(Found([], 0), before);
    DissectInvertsEncode(h);
    NoteAllAppend(Found([], 0), before + [e], after);
    NoteAllAppend(Found([], 0), before, [e]);
    NoteAllKeepsSni(Found([], 0), before);
    ServerNameInverts(name);
    assert NoteAll(f, [e]) == Note(f, 0, e.body);
    NoteAllKeepsSni(NoteAll(f, [e]), after);
  }

  /** The Hello of the sample capture: supported_versions announces TLS 1.3 behind the name. */
  function SampleHello(name: seq<byte>): ClientHello
    requires |name| + 5 < 65536
  {
    ClientHello(0x01, 0x0303, seq(32, i requires 0 <= i < 32 => i), [], [0x13, 0x01], [0x00],
                [ServerNameExtension(name), Extension(0x002B, [2, 3, 4])])
  }

  lemma SampleFits(name: seq<byte>)
    requires |name| < 65000
    ensures Fits(SampleHello(name))
  {
    var h := SampleHello(name);
    assert h.extensions[1..] == [h.extensions[1]] && [h.extensions[1]][1..] == [];
    assert |EncodeExtensions([])| == 0;
    assert |EncodeExtensions([h.extensions[1]])| == 7;
    assert |EncodeExtensions(h.extensions)| == 4 + 5 + |name| + 7;
  }

  lemma SampleNotes(name: seq<byte>)
    requires 0 < |name| < 65000
    ensures NoteAll(Found([], 0), SampleHello(name).extensions) == Found(name, 0x0304)
  {
    var exts := SampleHello(name).extensions;
    ServerNameInverts(name);
    assert exts == [exts[0]] + [exts[1]];
    NoteAllAppend(Found([], 0), [exts[0]], [exts[1]]);
    assert [2, 3, 4] == exts[1].body;
    assert MaxVersion(exts[1].body, 1, 1, 0) == MaxVersion(exts[1].body, 3, 0, 0x0304);
  }

  /** The sample Hello reads as the capture tool promises, whatever the name. */
  lemma SampleHelloReads(name: seq<byte>)
    requires 0 < |name| < 65000
    ensures Fits(SampleHello(name))
    ensures Dissected(Encode(SampleHello(name))) ==
            Some(AppInfo(Tls, "TLS1.3 sni=" + Sanitized(name, SNI_MAX), true))
    ensures |name| <= 48 && (forall b | b in name :: 0x20 <= b <= 0x7E) ==>
            Dissected(Encode(SampleHello(name))) == Some(AppInfo(Tls, "TLS1.3 sni=" + Chars(name), true))
  {
    if |name| <= 48 && forall b | b in name :: 0x20 <= b <= 0x7E {
      PrintableShown(name, SNI_MAX);
    }
    SampleFits(name);
    SampleNotes(name);
    DissectInvertsEncode(SampleHello(name));
    SampleReport(name);
  }

  lemma SampleReport(name: seq<byte>)
    requires name != []
    ensures Report(true, 0x0303, Found(name, 0x0304)) == AppInfo(Tls, "TLS1.3 sni=" + Sanitized(name, SNI_MAX), true)
  {
    assert "TLS1.3" + " sni=" == "TLS1.3 sni=";
  }

  // --------------------------------------------------------------- what is shown

  const VERSION_TEXTS: seq<string> := ["SSL3.0", "TLS1.0", "TLS1.1", "TLS1.2", "TLS1.3"]

  /** The five known versions stand in a row. */
  function VersionText(version: int): string {
    if 0x0300 <= version <= 0x0304 then VERSION_TEXTS[version - 0x0300] else "TLS?"
  }

  lemma VersionReads(version: int)
    ensures VersionName(version) == VersionText(version)
  {
  }

  /** What a Hello with these extensions says: a version, and a name or which side speaks. Only a client's Hello without
      a name leaves the flow open. */
  function HelloText(client: bool, legacy: int, f: Found): AppInfo {
    var version := VersionText(if f.version != 0 then f.version else legacy);
    if f.sni != [] then AppInfo(Tls, version + " sni=" + Sanitized(f.sni, 48), true)
    else if client then AppInfo(Tls, version + " client-hello", false)
    else AppInfo(Tls, version + " server-hello", true)
  }

  lemma ReportReads(client: bool, legacy: int, f: Found)
    ensures Report(client, legacy, f) == HelloText(client, legacy, f)
  {
    VersionReads(if f.version != 0 then f.version else legacy);
  }

  lemma ClientHelloReads(h: ClientHello)
    requires Fits(h)
    ensures Dissected(Encode(h)) == Some(HelloText(true, h.version, NoteAll(Found([], 0), h.extensions)))
  {
    DissectInvertsEncode(h);
    ReportReads(true, h.version, NoteAll(Found([], 0), h.extensions));
  }

  datatype ServerHello = ServerHello(
    recordMinor: byte,
    version: nat,
    random: seq<byte>,
    session: seq<byte>,
    cipher: seq<byte>,
    compression: byte,
    extensions: seq<Extension>)
  {
    ghost predicate Fits() {
      && version < 65536 && |random| == 32 && |session| < 256 && |cipher| == 2
      && (forall e | e in extensions :: Encodable(e)) && |EncodeExtensions(extensions)| < 65000
    }

    function Choices(): seq<byte>
      requires |session| < 256
    {
      [|session|] + session + cipher + [compression]
    }

    /** Up to the extensions. */
    function Fixed(): seq<byte>
      requires version < 65536 && |session| < 256
    {
      Bytes16(version) + random + Choices()
    }

    /** The handshake length is not looked at. */
    function Encode(recordLength: nat, length: nat): seq<byte>
      requires Fits() && recordLength < 65536 && length < 65536
    {
      [0x16, 0x03, recordMinor] + Bytes16(recordLength) + [0x02, 0x00] + Bytes16(length) + Fixed()
      + (Bytes16(|EncodeExtensions(extensions)|) + EncodeExtensions(extensions))
    }
  }

  /** A built ServerHello is read back. */
  lemma ServerHelloReads(h: ServerHello, recordLength: nat, length: nat)
    requires h.Fits() && recordLength < 65536 && length < 65536
    ensures Dissected(h.Encode(recordLength, length)) == Some(HelloText(false, h.version, NoteAll(Found([], 0), h.extensions)))
  {
    var d, at := h.Encode(recordLength, length), 47 + |h.session|;
    var head := [0x16, 0x03, h.recordMinor] + Bytes16(recordLength) + [0x02, 0x00] + Bytes16(length);
    var tail := Bytes16(|EncodeExtensions(h.extensions)|) + EncodeExtensions(h.extensions);
    var fixed := head + h.Fixed();
    assert d == fixed + tail && |fixed| == at;
    assert fixed[0] == 0x16 && fixed[1] == 0x03 && fixed[5] == 2 && fixed[43] == |h.session| && U16(fixed, 9) == h.version;
    assert forall i | 0 <= i < at :: d[i] == fixed[i];
    assert ReadHeader(d) == Hello(false, h.version, at);
    assert d[at..at + |tail|] == tail;
    BlockInverts(d, at, h.extensions);
    ReportReads(false, h.version, NoteAll(Found([], 0), h.extensions));
  }

  /** A handshake record of any other kind is TLS, with the record's version. */
  lemma OtherHandshakeReads(minor: byte, length: nat, kind: byte, rest: seq<byte>)
    requires length < 65536 && kind != 1 && kind != 2
    ensures Dissected([0x16, 0x03, minor] + Bytes16(length) + [kind] + rest) ==
            Some(AppInfo(Tls, VersionText(0x0300 + minor), false))
  {
    var d := [0x16, 0x03, minor] + Bytes16(length) + [kind] + rest;
    assert d[0] == 0x16 && d[1] == 0x03 && d[2] == minor && d[5] == kind;
    VersionReads(0x0300 + minor);
  }

  /** Only a handshake record of TLS or SSL 3 is ever taken for TLS. */
  lemma TlsNeedsHandshake(d: seq<byte>)
    ensures Dissected(d).Some? ==> |d| >= 6 && d[0] == 0x16 && d[1] == 0x03 && Dissected(d).value.proto == Tls
  {
  }

  /** A ClientHello cut short is nothing until all before its extensions is there, then a version without a side until
      the length of the extensions is there too. */
  lemma CutHelloReads(h: ClientHello, n: nat)
    requires Fits(h) && n <= |Encode(h)|
    ensures var at := 43 + |Choices(h)|;
            && (n < at <==> Dissected(Encode(h)[..n]).None?)
            && (at <= n < at + 2 ==> Dissected(Encode(h)[..n]) == Some(AppInfo(Tls, VersionText(h.version), false)))
  {
    var d, e, at := Encode(h), Encode(h)[..n], 43 + |Choices(h)|;
    HeaderInverts(h);
    VersionReads(h.version);
    assert forall i | 0 <= i < n :: e[i] == d[i];
    if ReadHeader(e).Hello? {
      HeaderStable(d, n);
    }
  }

  /** A server_name extension yields its first entry if that is a whole host name, and nothing otherwise. */
  lemma ServerNameReads(listLength: nat, kind: byte, declared: nat, bytes: seq<byte>)
    requires listLength < 65536 && declared < 65536
    ensures ServerName(Bytes16(listLength) + [kind] + Bytes16(declared) + bytes) ==
            if kind == 0 && declared <= |bytes| then bytes[..declared] else []
    ensures forall ext | |ext| < 5 :: ServerName(ext) == []
  {
    var ext := Bytes16(listLength) + [kind] + Bytes16(declared) + bytes;
    assert ext[2] == kind && U16(ext, 3) == declared && ext[5..] == bytes;
    assert declared <= |bytes| ==> ext[5..5 + declared] == bytes[..declared];
  }
}
