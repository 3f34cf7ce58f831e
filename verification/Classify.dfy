/** The verdict on a transaction's bytes, `classify.rs`. */
module Classify {
  import opened Bytes
  import opened Wrappers

  import T = Transaction

  datatype Class = Migration | PassThrough | Unparseable {
    /** The routing decision; bytes that do not parse count as a migration. */
    predicate TreatAsMigration() {
      Migration? || Unparseable?
    }
  }

  /** What deserialization makes of bytes: a transaction and how many bytes it took. */
  type Deserialize = seq<Byte> -> Option<(T.Transaction, nat)>

  predicate IsOrchardTouching(tx: T.Transaction) {
    (tx.V5? || tx.V6?) && tx.orchard.Some?
  }

  function ClassOf(deserialize: Deserialize, raw: seq<Byte>): Class {
    match deserialize(raw)
    case None => Unparseable
    case Some((tx, position)) =>
      if position != |raw| then Unparseable
      else if IsOrchardTouching(tx) then Migration
      else PassThrough
  }

  /** All of the bytes are one transaction, and it does not touch Orchard. */
  ghost predicate MayPass(deserialize: Deserialize, raw: seq<Byte>) {
    exists tx :: deserialize(raw) == Some((tx, |raw|)) && !IsOrchardTouching(tx)
  }

  /** Only such bytes may reach the operator's indexer. */
  lemma ClassExact(deserialize: Deserialize, raw: seq<Byte>)
    ensures !ClassOf(deserialize, raw).TreatAsMigration() <==> MayPass(deserialize, raw)
  {
    if ClassOf(deserialize, raw).PassThrough? {
      var (tx, position) := deserialize(raw).value;
      assert deserialize(raw) == Some((tx, |raw|));
    }
  }
}
