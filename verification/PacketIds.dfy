/** Packet identifiers (section 2.3.1 of MQTT 3.1.1). */
module PacketIds {

  const MAX_PACKET_ID := 65535

  /** `getNextPacketId`. */
  function NextId(id: nat): nat {
    if id == MAX_PACKET_ID then 1 else id + 1
  }

  /** The identifier after `n` calls; `MQTTClientInit` starts with 1. */
  function IdAfter(n: nat): nat {
    if n == 0 then 1 else NextId(IdAfter(n - 1))
  }

  /** The n-th call returns 1 + n mod 65535: never 0 and always sixteen bits. */
  lemma {:induction false} IdAfterIs(n: nat)
    ensures IdAfter(n) == 1 + n % MAX_PACKET_ID && 1 <= IdAfter(n) <= MAX_PACKET_ID
  {
    if n > 0 {
      IdAfterIs(n - 1);
      ModStep(n);
    }
  }

  lemma ModStep(n: nat)
    requires n > 0
    ensures n % MAX_PACKET_ID ==
            if (n - 1) % MAX_PACKET_ID == MAX_PACKET_ID - 1 then 0 else (n - 1) % MAX_PACKET_ID + 1
  {
  }

  /** An identifier comes back after exactly 65535 calls and not before. */
  lemma IdsDistinct(i: nat, j: nat)
    requires i < j <= i + MAX_PACKET_ID
    ensures IdAfter(i) == IdAfter(j) <==> j == i + MAX_PACKET_ID
  {
    hide IdAfter;
    IdAfterIs(i);
    IdAfterIs(j);
    ModAdd(i, j - i);
  }

  lemma ModAdd(i: nat, d: nat)
    requires 0 < d <= MAX_PACKET_ID
    ensures (i + d) % MAX_PACKET_ID ==
            var r := i % MAX_PACKET_ID; if r + d < MAX_PACKET_ID then r + d else r + d - MAX_PACKET_ID
  {
  }
}
