/** Option and Result values, and the reasons for which the client refuses a call. */
module Results {

  datatype Option<+T> = None | Some(value: T) {
    function GetOr(default: T): T {
      match this
      case Some(v) => v
      case None => default
    }
  }

  /** The exception classes DataFormatError and ActionError; an ActionError is kept as its reason. */
  datatype Error = DataFormatError | ActionError(refusal: Refusal)

  datatype Refusal =
    | NoPortSelected
    | PortsOutOfRange(invalid: seq<int>)
    | ModeDisabled
    | VlanIdOutOfRange
    | InvalidVlanName
    | TaggedAndUntagged(overlap: seq<int>)
    | TooManyVlans
    | OrphanedPorts(orphaned: seq<int>)
    | DefaultVlan
    | NoSuchVlan
    | NotVlanMembers(outsiders: seq<int>)
    | GroupIdOutOfRange
    | GroupSizeOutOfRange
    | OutsideGroupWindow
    | DestinationRequired
    | SourceRequired
    | DestinationIsSource
    | LagMemberPort
    | NotPortBased
    | PriorityOutOfRange

  datatype Result<+T> = Ok(value: T) | Err(error: Error) {
    predicate IsFailure() {
      Err?
    }

    function PropagateFailure<U>(): Result<U>
      requires Err?
    {
      Err(error)
    }

    function Extract(): T
      requires Ok?
    {
      value
    }
  }

  function Refuse<T>(refusal: Refusal): Result<T> {
    Err(ActionError(refusal))
  }
}
