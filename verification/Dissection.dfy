/** What application identification reports, and the text it may show. */
module Dissection {
  import opened Serial

  datatype Option<+T> = None | Some(value: T)

  datatype AppProtocol = Unknown | Http | Tls | Dns | Ssh | Dhcp | Ntp | Other

  datatype AppInfo = AppInfo(proto: AppProtocol, summary: string, conclusive: bool)
  {
    predicate Identified() { proto != Unknown }
  }

  const UNIDENTIFIED: AppInfo := AppInfo(Unknown, "", false)

  function Printable(u: byte): char {
    if 0x20 <= u < 0x7F then u as char else '.'
  }

  function PrintableAll(s: seq<byte>): (r: string)
    ensures |r| == |s|
    ensures forall i | 0 <= i < |s| :: r[i] == Printable(s[i])
  {
    seq(|s|, i requires 0 <= i < |s| => Printable(s[i]))
  }

  /** Bounded, printable text: at most `max` characters of the input, and ".." if there was more. */
  function Sanitized(s: seq<byte>, max: nat): string {
    if |s| <= max then PrintableAll(s) else PrintableAll(s[..max]) + ".."
  }

  /** `out` shows the input byte for byte, up to `max` of them: itself from blank to tilde, a dot otherwise; and two dots
      more exactly when the input is longer. */
  ghost predicate Shows(out: string, s: seq<byte>, max: nat) {
    && |out| == (if |s| <= max then |s| else max + 2)
    && (forall i | 0 <= i < |s| && i < max :: out[i] == if 0x20 <= s[i] <= 0x7E then s[i] as char else '.')
    && (|s| > max ==> out[max..] == "..")
  }

  lemma SanitizedShows(s: seq<byte>, max: nat)
    ensures Shows(Sanitized(s, max), s, max)
  {
  }

  /** Printable text is shown as it is. */
  function Chars(s: seq<byte>): string {
    seq(|s|, i requires 0 <= i < |s| => s[i] as char)
  }

  lemma PrintableShown(s: seq<byte>, max: nat)
    requires |s| <= max && forall b | b in s :: 0x20 <= b <= 0x7E
    ensures Sanitized(s, max) == Chars(s)
  {
    SanitizedShows(s, max);
    assert forall i | 0 <= i < |s| :: s[i] in s;
  }

  method Sanitize(s: seq<byte>, max: nat) returns (out: string)
    ensures out == Sanitized(s, max)
    ensures Shows(out, s, max)
    ensures |out| <= max + 2 && forall c | c in out :: ' ' <= c <= '~'
  {
    SanitizedShows(s, max);
    out := "";
    var i := 0;
    while i < |s|
      invariant i <= |s| && i <= max && out == PrintableAll(s[..i])
    {
      if |out| >= max {
        out := out + "..";
        assert s[..i] == s[..max];
        return;
      }
      out := out + [Printable(s[i])];
      assert s[..i + 1] == s[..i] + [s[i]];
      i := i + 1;
    }
    assert s[..i] == s;
  }

  function U16(d: seq<byte>, p: nat): int
    requires p + 2 <= |d|
  {
    256 * (d[p] as int) + d[p + 1] as int
  }

  function Bytes16(n: nat): seq<byte>
    requires n < 65536
  {
    [n / 256, n % 256]
  }

  /** The bytes `s` stand at position `p`. */
  ghost predicate Holds(d: seq<byte>, p: nat, s: seq<byte>) {
    p + |s| <= |d| && d[p..p + |s|] == s
  }

  lemma HoldsSplit(d: seq<byte>, p: nat, a: seq<byte>, b: seq<byte>)
    requires Holds(d, p, a + b)
    ensures Holds(d, p, a) && Holds(d, p + |a|, b)
  {
    var s := d[p..p + |a + b|];
    assert a == s[..|a|] && b == s[|a|..];
  }

  lemma HoldsU16(d: seq<byte>, p: nat, n: nat)
    requires n < 65536 && Holds(d, p, Bytes16(n))
    ensures U16(d, p) == n
  {
    assert d[p..p + 2][0] == n / 256 && d[p..p + 2][1] == n % 256;
  }

  /** Big-endian reader that refuses to read past the end of its buffer. */
  class ByteReader {
    const data: seq<byte>
    var pos: nat

    ghost predicate Valid()
      reads this
    {
      pos <= |data|
    }

    constructor (data: seq<byte>)
      ensures Valid() && this.data == data && pos == 0
    {
      this.data, pos := data, 0;
    }

    method ReadU8() returns (ok: bool, v: byte)
      requires Valid()
      modifies this
      ensures Valid() && (ok <==> old(pos) + 1 <= |data|)
      ensures if ok then pos == old(pos) + 1 && v == data[old(pos)] else pos == old(pos)
    {
      if |data| - pos < 1 {
        return false, 0;
      }
      v := data[pos];
      pos := pos + 1;
      ok := true;
    }

    method ReadU16() returns (ok: bool, v: int)
      requires Valid()
      modifies this
      ensures Valid() && (ok <==> old(pos) + 2 <= |data|)
      ensures if ok then pos == old(pos) + 2 && v == U16(data, old(pos)) else pos == old(pos)
    {
      if |data| - pos < 2 {
        return false, 0;
      }
      v := U16(data, pos);
      pos := pos + 2;
      ok := true;
    }

    method Skip(n: nat) returns (ok: bool)
      requires Valid()
      modifies this
      ensures Valid() && (ok <==> old(pos) + n <= |data|)
      ensures pos == if ok then old(pos) + n else old(pos)
    {
      if |data| - pos < n {
        return false;
      }
      pos := pos + n;
      ok := true;
    }

    method Read(n: nat) returns (ok: bool, out: seq<byte>)
      requires Valid()
      modifies this
      ensures Valid() && (ok <==> old(pos) + n <= |data|)
      ensures if ok then pos == old(pos) + n && out == data[old(pos)..old(pos) + n] else pos == old(pos)
    {
      if |data| - pos < n {
        return false, [];
      }
      out := data[pos..pos + n];
      pos := pos + n;
      ok := true;
    }
  }
}
