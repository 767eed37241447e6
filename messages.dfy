/** The single status channel of a Formula and the texts it renders to. */
module Messages {

  datatype Option<T> = None | Some(value: T)

  /** The largest value of a signed 32-bit int (INT32_MAX). */
  const IntMax: int := 0x7FFF_FFFF

  /** What `status_` holds. Positions travel as integers; `Text` renders them. */
  datatype Status =
    | Ok
    | InvalidName(at: int)
    | IndexOverflow
    | NotParsed
    | NoDefinitions
    | InternalError
    | NegativeIndex(index: int)
  {
    /** The exact message text `status_` holds. */
    function Text(): string
    {
      match this
      case Ok => "OK"
      case InvalidName(j) => InvalidNameMessage(j)
      case IndexOverflow => IndexOverflowMessage
      case NotParsed => NotParsedMessage
      case NoDefinitions => NoDefinitionsMessage
      case InternalError => InternalErrorMessage
      case NegativeIndex(v) => NegativeIndexMessage(v)
    }
  }

  /** Only `Ok` renders as "OK", so `result()`'s comparison with "OK" tells the
      status apart exactly. */
  lemma TextIsOk(st: Status)
    ensures st.Text() == "OK" <==> st.Ok?
  {
  }

  // The messages.

  function InvalidNameMessage(j: int): string {
    "Invalid variable name at " + Decimal(j) + ".\n"
    + "You are only allowed to use [a-z], [A-Z], [0-9] and '_'."
  }

  const IndexOverflowMessage: string :=
    "Exceeded maximum length of signed integer. The program can no longer process indices."

  const NotParsedMessage: string :=
    "You have to run .parse() first."

  const NoDefinitionsMessage: string :=
    "You have to .define() variables first."

  const InternalErrorMessage: string :=
    "An internal error occurred during the parsing process. This is a BUG!"

  function NegativeIndexMessage(v: int): string {
    "An index can not be negative (" + Decimal(v) + "). This is a BUG!"
  }

  /** Decimal rendering of an integer, as std::to_string does it. */
  function Decimal(n: int): string {
    if n < 0 then "-" + Digits(-n) else Digits(n)
  }

  function Digits(n: nat): string
    decreases n
  {
    if n < 10 then [Digit(n)] else Digits(n / 10) + [Digit(n % 10)]
  }

  function Digit(d: nat): char
    requires d < 10
  {
    "0123456789"[d]
  }
}
