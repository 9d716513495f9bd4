/**
 * The structured counter names the proxy's stats query reports, such as
 * "user>>>alice>>>traffic>>>downlink": segment 1 of the name split on ">>>"
 * is the user label and segment 3 the traffic type.
 */
module StatName {
  import opened Wrappers
  import opened PyStr

  const Delimiter: string := ">>>"

  /** The `IndexError` Python raises when a segment is missing. */
  datatype FieldError =
    | UserIndexError  // fewer than 2 segments: the user lookup fails
    | TypeIndexError  // 2 or 3 segments: the traffic-type lookup fails

  /** The two fields the report prints for a counter. */
  datatype Fields = Fields(user: string, trafficType: string)

  /** The user label: segment 1 of the name split on the delimiter, or the lookup error. */
  function UserOf(name: string): Result<string, FieldError> {
    var parts := Split(name, Delimiter);
    if |parts| >= 2 then Ok(parts[1]) else Err(UserIndexError)
  }

  /** The traffic type: segment 3 of the name split on the delimiter, or the lookup error. */
  function TypeOf(name: string): Result<string, FieldError> {
    var parts := Split(name, Delimiter);
    if |parts| >= 4 then Ok(parts[3]) else Err(TypeIndexError)
  }

  /** The user is looked up first, then the traffic type; the first lookup that fails raises. */
  function ParseName(name: string): Result<Fields, FieldError> {
    match UserOf(name)
    case Err(e) => Err(e)
    case Ok(user) =>
      match TypeOf(name)
      case Err(e) => Err(e)
      case Ok(trafficType) => Ok(Fields(user, trafficType))
  }

  /** The segment of a name that starts at `start`: up to the next delimiter, or to the end of the name. */
  function Segment(name: string, start: nat): string
    requires start <= |name|
  {
    name[start..SegmentEnd(name, Delimiter, start)]
  }

  /**
   * The user label is the text right after the first delimiter, up to the
   * second one or the end of the name; a name without a delimiter has no
   * user label, and looking it up raises.
   */
  lemma UserIsSecondSegment(name: string)
    ensures match PieceStart(name, Delimiter, 0, 1)
      case None => UserOf(name) == Err(UserIndexError)
      case Some(p) => UserOf(name) == Ok(Segment(name, p))
  {
    PieceOfSplit(name, Delimiter, 1);
  }

  /**
   * The traffic type is the text right after the third delimiter, up to the
   * fourth one or the end of the name; a name with fewer than three
   * delimiters has no traffic type, and looking it up raises.
   */
  lemma TypeIsFourthSegment(name: string)
    ensures match PieceStart(name, Delimiter, 0, 3)
      case None => TypeOf(name) == Err(TypeIndexError)
      case Some(p) => TypeOf(name) == Ok(Segment(name, p))
  {
    PieceOfSplit(name, Delimiter, 3);
  }

  /**
   * A name yields both fields exactly when it splits into at least four
   * segments; fewer than two fail at the user lookup, two or three at the
   * traffic-type lookup. The fields are segments 1 and 3, and the name is
   * those segments joined back with the delimiter, none of them containing it.
   */
  lemma ParseNameNeedsFourSegments(name: string)
    ensures var parts := Split(name, Delimiter);
      match ParseName(name)
      case Ok(f) =>
        |parts| >= 4 && f == Fields(parts[1], parts[3])
        && Join(parts, Delimiter) == name
        && !Contains(parts[1], Delimiter) && !Contains(parts[3], Delimiter)
      case Err(UserIndexError) => |parts| < 2
      case Err(TypeIndexError) => 2 <= |parts| < 4
  {
    JoinSplit(name, Delimiter);
    SplitPiecesAreFree(name, Delimiter);
  }
}
