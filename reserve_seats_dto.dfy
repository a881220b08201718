/** The request body of a reservation: the seat ids and an optional hold duration. */
module ReserveSeatsDto {

  const DefaultExpiresInMinutes: int := 15
  const MinExpiresInMinutes: int := 5
  const MaxExpiresInMinutes: int := 60

  /** The duration field as the JSON body carries it: left out, an explicit null, or a number. */
  datatype ExpiresInField = Absent | Null | Given(minutes: int)

  /** The optional marker skips every other validator when the field is left out or null; a
      number must lie between 5 and 60 minutes. The seat id list is only required to be a list:
      it may be empty and may repeat ids. */
  predicate IsValidExpiresIn(expiresInMinutes: ExpiresInField)
  {
    match expiresInMinutes
    case Absent => true
    case Null => true
    case Given(m) => MinExpiresInMinutes <= m <= MaxExpiresInMinutes
  }

  /** The minutes the service adds to the clock for a request's duration field. The default
      parameter fills in only a field that was left out; a null goes through to the addition,
      where it counts as zero. */
  function HoldMinutes(expiresInMinutes: ExpiresInField): (m: int)
    ensures expiresInMinutes.Absent? ==> m == DefaultExpiresInMinutes
    ensures expiresInMinutes.Null? ==> m == 0
    ensures expiresInMinutes.Given? ==> m == expiresInMinutes.minutes
    ensures IsValidExpiresIn(expiresInMinutes) && !expiresInMinutes.Null? ==>
      MinExpiresInMinutes <= m <= MaxExpiresInMinutes
  {
    match expiresInMinutes
    case Absent => DefaultExpiresInMinutes
    case Null => 0
    case Given(m) => m
  }
}
