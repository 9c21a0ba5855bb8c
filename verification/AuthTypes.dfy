/** Vocabulary shared by every component: machine integers, encoded names and
    authentication events.
 */
module AuthTypes {

  const I64_MIN: int := -0x8000_0000_0000_0000
  const I64_MAX: int := 0x7fff_ffff_ffff_ffff
  const U64_MAX: nat := 0xffff_ffff_ffff_ffff

  type byte = x: int | 0 <= x < 256

  predicate IsI64(x: int) {
    I64_MIN <= x <= I64_MAX
  }

  /** `u64::saturating_add(1)` on a counter. */
  function SaturatingInc(x: nat): (r: nat)
    ensures x < U64_MAX ==> r == x + 1
    ensures x == U64_MAX ==> r == x
  {
    if x < U64_MAX then x + 1 else x
  }

  /** `i64::saturating_sub`. */
  function SaturatingSub(a: int, b: int): (r: int)
    ensures IsI64(r) && (IsI64(a - b) ==> r == a - b)
    ensures a - b > I64_MAX ==> r == I64_MAX
  {
    if a - b < I64_MIN then I64_MIN else if a - b > I64_MAX then I64_MAX else a - b
  }

  datatype Option<+T> = None | Some(value: T)

  const USERNAME_BYTES: nat := 64

  /** A role name in the fixed-size, NUL-padded form the shared structures hold.
      A leading NUL marks a free slot. */
  type Name = s: seq<byte> | |s| == 64 witness seq(64, _ => 0)

  function NoName(): Name {
    seq(64, _ => 0)
  }

  predicate Occupied(n: Name) {
    n[0] != 0
  }

  const KIND_FAILURE: nat := 1
  const KIND_SUCCESS: nat := 2
  const KIND_GRACE: nat := 3

  const FLAG_CLEAR_LOGIN_ATTEMPTS: nat := 1

  /** One authentication event. `seqNo` is assigned by the ring and is zero in a
      journal record; `kind` and `flags` are raw discriminants. */
  datatype Event = Event(
    id: seq<byte>,
    user: Name,
    timestamp: int,
    seqNo: nat,
    kind: byte,
    generation: int,
    flags: byte)

  /** The event as the durable journal records it. */
  function Durable(e: Event): Event {
    e.(seqNo := 0)
  }

  predicate ClearsAttempts(e: Event) {
    e.flags % 2 == FLAG_CLEAR_LOGIN_ATTEMPTS
  }

  predicate KnownKind(kind: byte) {
    kind == KIND_FAILURE || kind == KIND_SUCCESS || kind == KIND_GRACE
  }

  predicate KnownFlags(flags: byte) {
    flags == 0 || flags == FLAG_CLEAR_LOGIN_ATTEMPTS
  }
}
