/** The durable event journal: the fixed-size record codec, the reader that
    discards a torn tail, and the two files a batch moves through.
 */
module Journal {
  import opened AuthTypes

  /** "PPJ1" */
  const MAGIC: seq<byte> := [0x50, 0x50, 0x4a, 0x31]
  const RECORD_SIZE: nat := 112
  const CHECKSUM_OFFSET: nat := 104
  const TWO_63: nat := 0x8000_0000_0000_0000
  const TWO_64: nat := 0x1_0000_0000_0000_0000

  /** The two foreign functions the codec relies on, about which nothing is
      assumed: the keyed checksum and UTF-8 validity. */
  datatype Foreign = Foreign(hash: seq<byte> -> nat, utf8: seq<byte> -> bool)

  datatype JournalError = BadHeader | BadChecksum | BadUsername | BadKind | BadFlags

  datatype Result<+T> = Ok(value: T) | Err(error: JournalError)

  // ---------------------------------------------------------------------
  // Little-endian integers
  // ---------------------------------------------------------------------

  function LeBytes(n: nat, k: nat): (r: seq<byte>)
    ensures |r| == k
  {
    if k == 0 then [] else [n % 256] + LeBytes(n / 256, k - 1)
  }

  function LeValue(s: seq<byte>): nat {
    if s == [] then 0 else s[0] + 256 * LeValue(s[1..])
  }

  function Pow256(k: nat): (p: nat)
    ensures p > 0
  {
    if k == 0 then 1 else 256 * Pow256(k - 1)
  }

  lemma {:induction false} LeRoundTrip(n: nat, k: nat)
    requires n < Pow256(k)
    ensures LeValue(LeBytes(n, k)) == n
  {
    if k > 0 {
      LeRoundTrip(n / 256, k - 1);
      assert LeBytes(n, k)[1..] == LeBytes(n / 256, k - 1);
    }
  }

  lemma {:induction false} LeBytesOfValue(s: seq<byte>)
    ensures LeValue(s) < Pow256(|s|)
    ensures LeBytes(LeValue(s), |s|) == s
  {
    if s != [] {
      LeBytesOfValue(s[1..]);
      assert LeValue(s) / 256 == LeValue(s[1..]) && LeValue(s) % 256 == s[0];
    }
  }

  lemma Pow256Of8()
    ensures Pow256(8) == TWO_64
  {
    assert Pow256(4) == 0x1_0000_0000;
    assert Pow256(8) == 256 * 256 * 256 * 256 * Pow256(4);
  }

  /** `i64::to_le_bytes`: two's complement, least significant byte first. */
  function I64Bytes(x: int): (r: seq<byte>)
    requires IsI64(x)
    ensures |r| == 8
  {
    LeBytes(if x < 0 then x + TWO_64 else x, 8)
  }

  /** `i64::from_le_bytes`. */
  function I64Value(s: seq<byte>): int
    requires |s| == 8
  {
    var n := LeValue(s);
    if n >= TWO_63 then n - TWO_64 else n
  }

  lemma I64RoundTrip(x: int)
    requires IsI64(x)
    ensures I64Value(I64Bytes(x)) == x
  {
    Pow256Of8();
    LeRoundTrip(if x < 0 then x + TWO_64 else x, 8);
  }

  lemma I64BytesOfValue(s: seq<byte>)
    requires |s| == 8
    ensures IsI64(I64Value(s)) && I64Bytes(I64Value(s)) == s
  {
    Pow256Of8();
    LeBytesOfValue(s);
  }

  // ---------------------------------------------------------------------
  // Names
  // ---------------------------------------------------------------------

  /** Position of the first NUL, or the length if there is none. */
  function NameEnd(bytes: seq<byte>): (n: nat)
    ensures n <= |bytes|
    ensures forall i :: 0 <= i < n ==> bytes[i] != 0
    ensures n < |bytes| ==> bytes[n] == 0
  {
    if bytes == [] || bytes[0] == 0 then 0 else 1 + NameEnd(bytes[1..])
  }

  /** `username_from_bytes`. */
  function UsernameFromBytes(env: Foreign, bytes: seq<byte>): Option<seq<byte>> {
    var end := NameEnd(bytes);
    if end == 0 || !env.utf8(bytes[..end]) then None else Some(bytes[..end])
  }

  /** `encode_username`: copies at most 63 bytes into a zeroed buffer. */
  method EncodeUsername(username: seq<byte>) returns (buf: Name)
    ensures buf == PaddedName(username)
  {
    var out := new byte[USERNAME_BYTES](_ => 0);
    var len := if |username| < USERNAME_BYTES - 1 then |username| else USERNAME_BYTES - 1;
    for i := 0 to len
      invariant out[..i] == username[..i]
      invariant forall j :: i <= j < USERNAME_BYTES ==> out[j] == 0
    {
      out[i] := username[i];
    }
    buf := out[..];
  }

  function PaddedName(username: seq<byte>): Name {
    var len := if |username| < USERNAME_BYTES - 1 then |username| else USERNAME_BYTES - 1;
    username[..len] + seq(USERNAME_BYTES - len, _ => 0)
  }

  /** Decoding a stored name gives back the name exactly when it is non-empty,
      NUL-free, valid UTF-8 and at most 63 bytes long. */
  lemma NameRoundTrip(env: Foreign, username: seq<byte>)
    ensures UsernameFromBytes(env, PaddedName(username)) == Some(username)
       <==> 0 < |username| <= USERNAME_BYTES - 1 && 0 !in username && env.utf8(username)
  {
    var p := PaddedName(username);
    var end := NameEnd(p);
    assert end <= 63 by {
      assert p[63] == 0;
    }
    if UsernameFromBytes(env, p) == Some(username) {
      assert p[..end] == username;
      forall i | 0 <= i < |username| ensures username[i] != 0 {
        assert p[i] == username[i];
      }
    }
    if 0 < |username| <= USERNAME_BYTES - 1 && 0 !in username {
      PaddedNameEnd(username);
    }
  }

  lemma PaddedNameEnd(username: seq<byte>)
    requires |username| <= 63 && 0 !in username
    ensures NameEnd(PaddedName(username)) == |username|
    ensures PaddedName(username)[..|username|] == username
  {
    var p := PaddedName(username);
    assert p[|username|] == 0;
    assert forall i :: 0 <= i < |username| ==> p[i] == username[i];
  }

  /** Distinct storable names never share a cache slot. */
  lemma PaddedNameInjective(a: seq<byte>, b: seq<byte>)
    requires |a| <= 63 && |b| <= 63 && 0 !in a && 0 !in b
    ensures PaddedName(a) == PaddedName(b) <==> a == b
  {
    PaddedNameEnd(a);
    PaddedNameEnd(b);
  }

  // ---------------------------------------------------------------------
  // Record codec
  // ---------------------------------------------------------------------

  predicate Representable(e: Event) {
    |e.id| == 16 && IsI64(e.timestamp) && IsI64(e.generation)
  }

  /** What `decode` insists on. */
  predicate ValidEvent(env: Foreign, e: Event) {
    UsernameFromBytes(env, e.user).Some? && KnownKind(e.kind) && KnownFlags(e.flags)
  }

  function Checksum(env: Foreign, bytes: seq<byte>): nat {
    env.hash(bytes) % TWO_64
  }

  function Body(e: Event): (r: seq<byte>)
    requires Representable(e)
    ensures |r| == CHECKSUM_OFFSET
  {
    MAGIC + e.id + e.user + I64Bytes(e.timestamp) + I64Bytes(e.generation) + [e.kind, e.flags, 0, 0]
  }

  function Record(env: Foreign, e: Event): (r: seq<byte>)
    requires Representable(e)
    ensures |r| == RECORD_SIZE
  {
    Body(e) + LeBytes(Checksum(env, Body(e)), 8)
  }

  function Decode(env: Foreign, bytes: seq<byte>): Result<Event>
    requires |bytes| == RECORD_SIZE
  {
    if bytes[0..4] != MAGIC then Err(BadHeader)
    else if Checksum(env, bytes[..CHECKSUM_OFFSET]) != LeValue(bytes[CHECKSUM_OFFSET..]) then
      Err(BadChecksum)
    else
      var e := Event(bytes[4..20], bytes[20..84], I64Value(bytes[84..92]), 0, bytes[100],
                     I64Value(bytes[92..100]), bytes[101]);
      if UsernameFromBytes(env, e.user).None? then Err(BadUsername)
      else if !KnownKind(e.kind) then Err(BadKind)
      else if !KnownFlags(e.flags) then Err(BadFlags)
      else Ok(e)
  }

  /** `copy_from_slice` into a subrange of the buffer. */
  method CopyInto(out: array<byte>, offset: nat, src: seq<byte>)
    requires offset + |src| <= out.Length
    modifies out
    ensures out[..offset + |src|] == old(out[..offset]) + src
    ensures forall j :: offset + |src| <= j < out.Length ==> out[j] == old(out[j])
  {
    for i := 0 to |src|
      invariant out[..offset + i] == old(out[..offset]) + src[..i]
      invariant forall j :: offset + i <= j < out.Length ==> out[j] == old(out[j])
    {
      out[offset + i] := src[i];
    }
  }

  /** `encode`: fills the record buffer field by field. */
  method Encode(env: Foreign, e: Event) returns (out: array<byte>)
    requires Representable(e)
    ensures fresh(out) && out[..] == Record(env, e)
  {
    out := new byte[RECORD_SIZE](_ => 0);
    FillBody(out, e);
    var sum := Checksum(env, out[..CHECKSUM_OFFSET]);
    CopyInto(out, CHECKSUM_OFFSET, LeBytes(sum, 8));
    assert out[..] == out[..RECORD_SIZE];
  }

  method FillBody(out: array<byte>, e: Event)
    requires Representable(e)
    requires out.Length == RECORD_SIZE && forall i :: 0 <= i < out.Length ==> out[i] == 0
    modifies out
    ensures out[..CHECKSUM_OFFSET] == Body(e)
  {
    CopyInto(out, 0, MAGIC);
    assert out[..4] == MAGIC;
    CopyInto(out, 4, e.id);
    CopyInto(out, 20, e.user);
    CopyInto(out, 84, I64Bytes(e.timestamp));
    CopyInto(out, 92, I64Bytes(e.generation));
    ghost var front := out[..100];
    out[100] := e.kind;
    out[101] := e.flags;
    assert out[..100] == front;
    assert out[..CHECKSUM_OFFSET] == out[..100] + [out[100], out[101], out[102], out[103]];
  }

  lemma BodyFields(e: Event)
    requires Representable(e)
    ensures var b := Body(e);
            && b[0..4] == MAGIC && b[4..20] == e.id && b[20..84] == e.user
            && b[84..92] == I64Bytes(e.timestamp) && b[92..100] == I64Bytes(e.generation)
            && b[100..104] == [e.kind, e.flags, 0, 0]
  {
  }

  lemma RecordFields(env: Foreign, e: Event)
    requires Representable(e)
    ensures var r := Record(env, e);
            && r[..CHECKSUM_OFFSET] == Body(e)
            && r[0..4] == MAGIC && r[4..20] == e.id && r[20..84] == e.user
            && r[84..92] == I64Bytes(e.timestamp) && r[92..100] == I64Bytes(e.generation)
            && r[100] == e.kind && r[101] == e.flags && r[102] == 0 && r[103] == 0
            && LeValue(r[CHECKSUM_OFFSET..]) == Checksum(env, Body(e))
  {
    BodyFields(e);
    var b, r := Body(e), Record(env, e);
    assert forall i, j :: 0 <= i <= j <= CHECKSUM_OFFSET ==> r[i..j] == b[i..j];
    assert b[100..104][0] == b[100] && b[100..104][1] == b[101];
    assert b[100..104][2] == b[102] && b[100..104][3] == b[103];
    Pow256Of8();
    LeRoundTrip(Checksum(env, b), 8);
  }

  /** Decoding an encoded event gives the event back with its ring number
      zeroed, for every timestamp and generation; it is refused exactly when
      the event is not valid. */
  lemma RecordRoundTrip(env: Foreign, e: Event)
    requires Representable(e)
    ensures Decode(env, Record(env, e)).Ok? <==> ValidEvent(env, e)
    ensures ValidEvent(env, e) ==> Decode(env, Record(env, e)) == Ok(Durable(e))
  {
    RecordFields(env, e);
    I64RoundTrip(e.timestamp);
    I64RoundTrip(e.generation);
  }

  /** Records identify events up to the ring number. */
  lemma RecordInjective(env: Foreign, a: Event, b: Event)
    requires Representable(a) && Representable(b)
    ensures Record(env, a) == Record(env, b) <==> Durable(a) == Durable(b)
  {
    RecordFields(env, a);
    RecordFields(env, b);
    I64RoundTrip(a.timestamp);
    I64RoundTrip(b.timestamp);
    I64RoundTrip(a.generation);
    I64RoundTrip(b.generation);
    if Durable(a) == Durable(b) {
      assert Body(a) == Body(b);
    }
  }

  /** A block that decodes is the record of what it decodes to, except for the
      two padding bytes, which only the checksum looks at. */
  lemma DecodedIsRecord(env: Foreign, bytes: seq<byte>)
    requires |bytes| == RECORD_SIZE
    requires Decode(env, bytes).Ok?
    ensures var e := Decode(env, bytes).value;
            && Representable(e) && ValidEvent(env, e)
            && (Record(env, e) == bytes <==> bytes[102] == 0 && bytes[103] == 0)
  {
    var e := Decode(env, bytes).value;
    I64BytesOfValue(bytes[84..92]);
    I64BytesOfValue(bytes[92..100]);
    RecordFields(env, e);
    if bytes[102] == 0 && bytes[103] == 0 {
      assert bytes[100..104] == [e.kind, e.flags, 0, 0];
      assert bytes[..104] == bytes[0..4] + bytes[4..20] + bytes[20..84] + bytes[84..92]
                             + bytes[92..100] + bytes[100..104];
      assert bytes[..104] == Body(e);
      LeBytesOfValue(bytes[104..]);
      assert bytes == bytes[..104] + bytes[104..];
    }
  }
}
