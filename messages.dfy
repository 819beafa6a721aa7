/**
 * The chat transcript handed to the language model: a Python list of
 * role/content dictionaries that the caller owns and that the response
 * generator updates in place.
 */
module Messages {
  import opened PyBuiltins

  datatype Role = User | Assistant | System

  /** One `{"role": ..., "content": ...}` entry; content None is Python's None. */
  datatype Message = Message(role: Role, content: Option<string>)

  /**
   * What one `llm.invoke(messages)` does: it returns a reply whose
   * `.content` is read, or raises an exception, of which only the text is
   * kept.
   */
  datatype Reply = Answer(content: string) | Raised(message: string)

  /** The caller's list object; every method below mirrors a `list` method. */
  class MessageList {
    var items: seq<Message>

    constructor (initial: seq<Message>)
      ensures items == initial
    {
      items := initial;
    }

    /** `list.insert(index, m)`: the index is normalised like a slice bound. */
    method Insert(index: int, m: Message)
      modifies this
      ensures var k := SliceBound(index, |old(items)|);
        items == old(items)[..k] + [m] + old(items)[k..]
    {
      var k := SliceBound(index, |items|);
      items := items[..k] + [m] + items[k..];
    }

    /** `list.append(m)`. */
    method Append(m: Message)
      modifies this
      ensures items == old(items) + [m]
    {
      items := items + [m];
    }

    /** `list.pop()`: removes and returns the last entry. */
    method Pop() returns (m: Message)
      requires items != []
      modifies this
      ensures old(items) == items + [m]
    {
      m := items[|items| - 1];
      items := items[..|items| - 1];
    }

    /** `list.pop(index)` for an index inside the list. */
    method PopAt(index: nat) returns (m: Message)
      requires index < |items|
      modifies this
      ensures m == old(items)[index]
      ensures items == old(items)[..index] + old(items)[index + 1..]
    {
      m := items[index];
      items := items[..index] + items[index + 1..];
    }
  }
}
