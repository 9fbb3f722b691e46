/** Owner identifiers: a wrapper around a possibly null string, compared by value. */
module OwnerIds {
  import opened Wrappers

  /** `None` is a null string. */
  datatype OwnerId = OwnerId(value: Option<string>)

  /** `OwnerId.of`: wraps the given string as it is, null included. */
  function Of(value: Option<string>): (r: OwnerId)
    ensures r.value == value
  {
    OwnerId(value)
  }

  /** `OwnerId.empty`: the owner of a free slot, wrapping the empty string. */
  function Empty(): (r: OwnerId)
    ensures r.value == Some("")
    ensures IsEmpty(r)
  {
    OwnerId(Some(""))
  }

  /** `isEmpty`: the wrapped string is null or has no characters. */
  function IsEmpty(owner: OwnerId): (r: bool)
    ensures r <==> owner == OwnerId(None) || owner == OwnerId(Some(""))
  {
    owner.value.None? || |owner.value.value| == 0
  }

  /** An identifier is empty exactly when it wraps null or the empty string. */
  lemma OfIsEmpty(value: Option<string>)
    ensures IsEmpty(Of(value)) <==> value == None || value == Some("")
  {
  }

  /** The free-slot owner is empty and equals the identifier of `""`. */
  lemma EmptyIsEmpty()
    ensures IsEmpty(Empty()) && Empty().value == Some("")
    ensures Empty() == Of(Some(""))
  {
  }

  /** Identifiers are equal exactly when they wrap equal strings. */
  lemma OfInjective(a: Option<string>, b: Option<string>)
    ensures Of(a) == Of(b) <==> a == b
  {
  }
}
