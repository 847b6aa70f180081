/** The Movement record: one immutable entry of the stock ledger. */
module MovementModel {
  import opened Wrappers

  /** The four kinds of stock change. */
  datatype MovementType = In | Out | Adjust | Expired

  /**
   * One ledger entry, linked to the batch it documents. The quantity is a
   * magnitude, never signed; the ledger's order is the order of creation.
   */
  datatype Movement = Movement(batchId: nat, kind: MovementType, quantity: nat, note: Option<string>)

  /** The code stored in the `movement_type` column. */
  function TypeCode(t: MovementType): (s: string)
    ensures 0 < |s| <= 7
  {
    match t
    case In => "IN"
    case Out => "OUT"
    case Adjust => "ADJUST"
    case Expired => "EXPIRED"
  }

  /** The column's choices: a stored code names exactly one movement type. */
  function ParseTypeCode(s: string): (r: Option<MovementType>)
    ensures r.Some? ==> TypeCode(r.value) == s
  {
    if s == "IN" then Some(In)
    else if s == "OUT" then Some(Out)
    else if s == "ADJUST" then Some(Adjust)
    else if s == "EXPIRED" then Some(Expired)
    else None
  }

  /** Every movement type is one of the column's choices, and reads back as itself. */
  lemma TypeCodeRoundTrip(t: MovementType)
    ensures ParseTypeCode(TypeCode(t)) == Some(t)
  {
  }

  /** The sum of the quantities recorded by `ms`. */
  function Quantities(ms: seq<Movement>): nat
  {
    if ms == [] then 0 else ms[0].quantity + Quantities(ms[1..])
  }
}
