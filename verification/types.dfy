/**
 * Shared vocabulary of the hash-aggregate code generator: Arrow data types,
 * expression-tree nodes, the action nodes of an aggregation plan, and the
 * status values generation can end with.
 */
module AggTypes {

  /** The Arrow types a key or an action argument can have. Only `Utf8`
      (Arrow's STRING) is singled out by the generator. */
  datatype DataType =
    | Boolean
    | Int8 | Int16 | Int32 | Int64
    | UInt8 | UInt16 | UInt32 | UInt64
    | Float32 | Float64
    | Date32
    | Decimal128
    | Utf8

  /** A named, typed column. */
  datatype Field = Field(name: string, fieldType: DataType)

  /** An expression tree: a column reference, a literal, or a function call. */
  datatype Node =
    | FieldNode(field: Field)
    | LiteralNode(literal: string, literalType: DataType)
    | FunctionNode(fn: string, args: seq<Node>, resultType: DataType)
  {
    function ReturnType(): DataType {
      match this
      case FieldNode(f) => f.fieldType
      case LiteralNode(_, t) => t
      case FunctionNode(_, _, t) => t
    }
  }

  /** One entry of the plan's action list: a function node whose name selects
      the aggregate and whose children are its argument expressions. */
  datatype ActionNode = ActionNode(name: string, children: seq<Node>, returnType: DataType)

  /** Why generation (or the generated action-list builder) stopped. */
  datatype Status =
    | Invalid(message: string)          // malformed plan
    | NotImplemented(name: string)      // action name outside the registry
    | StoiInvalidArgument(text: string) // std::stoi found no digits
    | StoiOutOfRange(text: string)      // std::stoi value does not fit an int
    | Upstream(message: string)         // failure reported by a collaborator

  datatype Option<T> = None | Some(value: T)

  datatype Result<T> = Ok(value: T) | Err(error: Status) {
    predicate IsFailure() {
      Err?
    }

    function PropagateFailure<U>(): Result<U>
      requires Err?
    {
      Err(error)
    }

    function Extract(): T
      requires Ok?
    {
      value
    }
  }

  /** Action-name conventions shared by analysis and the action registry. */
  const ActionPrefix := "action_"
  const CountLiteralPrefix := "action_countLiteral_"
  const GroupByName := "action_groupby"

  /** `s` starts with `p`; this is what `s.compare(0, |p|, p) == 0` tests. */
  predicate HasPrefix(s: string, p: string) {
    |p| <= |s| && s[..|p|] == p
  }
}
