/**
 * The value type the Scheme reader builds: a kind tag, a text, a list of
 * children and the quote level the value was read at.  The function-pointer
 * field of the original record is not part of this model.
 */
module SchemeData {

  datatype DataType = Invalid | Integer | Real | Variable | List | Procedure | Symbol | Lambda

  datatype Data = Data(list: seq<Data>, text: string, kind: DataType, quoteLevel: nat)

  /** `Data::from_string_quoted`: a childless value of the given kind, text and quote level. */
  function FromStringQuoted(kind: DataType, text: string, quoteLevel: nat): (d: Data)
    ensures d.kind == kind && d.text == text && d.quoteLevel == quoteLevel && d.list == []
  {
    Data([], text, kind, quoteLevel)
  }

  /** `Data::from_string`: the unquoted case of `from_string_quoted`. */
  function FromString(kind: DataType, text: string): (d: Data)
    ensures d == FromStringQuoted(kind, text, 0)
  {
    Data([], text, kind, 0)
  }

  /** `Data::new`: an unquoted `Invalid` value with no text. */
  function New(): (d: Data)
    ensures d == FromString(Invalid, "")
  {
    Data([], "", Invalid, 0)
  }

  /** `Data::new_list`: an empty unquoted `List`. */
  function NewList(): (d: Data)
    ensures d == FromString(List, "")
  {
    Data([], "", List, 0)
  }

  /** `NULL_SYM`: the empty-list sentinel, a textless `Symbol` at quote level 1. */
  function NullSym(): (d: Data)
    ensures d == FromStringQuoted(Symbol, "", 1)
  {
    Data([], "", Symbol, 1)
  }
}
