/** Message_t: the generic in-memory ASCII ("NCode") message of AMOS.

    A message has a type code, a set of fields keyed by field code, and an
    ordered vector of submessages. Submessages are held by value (the source
    copies the vector), so they are modelled by the datatype MessageValue. */
module Messages {
  import opened NCodes

  /** The value of a message, as held in a vector of submessages. */
  datatype MessageValue = MessageValue(mcode: NCode, fields: map<NCode, string>, subs: seq<MessageValue>)

  /** The empty message: what a fresh or cleared Message_t holds. */
  const EMPTY: MessageValue := MessageValue(M_NULL, map[], [])

  /** Field data is well formed unless it spans several lines without
      ending in a newline. */
  predicate WellFormedData(data: string)
  {
    '\n' !in data || data[|data| - 1] == '\n'
  }

  class Message {
    var mcode: NCode
    var fields: map<NCode, string>
    var subs: seq<MessageValue>

    /** The message as a value. */
    function Value(): (v: MessageValue)
      reads this
      ensures v.mcode == mcode && v.fields == fields && v.subs == subs
    {
      MessageValue(mcode, fields, subs)
    }

    /** Constructs an empty message of type M_NULL. */
    constructor ()
      ensures Value() == EMPTY
    {
      mcode := M_NULL;
      fields := map[];
      subs := [];
    }

    /** Resets the type to M_NULL and drops every field and submessage. */
    method Clear()
      modifies this
      ensures Value() == EMPTY
    {
      mcode := M_NULL;
      fields := map[];
      subs := [];
    }

    /** True exactly when a field with this code is present. */
    method Exists(fcode: NCode) returns (b: bool)
      ensures b <==> fcode in fields
    {
      b := fcode in fields;
    }

    /** The data of field fcode; an argument error when it is absent. */
    method GetField(fcode: NCode) returns (r: Result<string>)
      ensures r.Ok? <==> fcode in fields
      ensures r.Ok? ==> r.value == fields[fcode]
      ensures r.Err? ==> r.error == ArgumentError
    {
      if fcode !in fields {
        return Err(ArgumentError);
      }
      r := Ok(fields[fcode]);
    }

    /** The submessages, in order. */
    method GetSubMessages() returns (s: seq<MessageValue>)
      ensures s == subs
    {
      s := subs;
    }

    /** The type code; M_NULL until one is assigned. */
    method GetMessageCode() returns (c: NCode)
      ensures c == mcode
    {
      c := mcode;
    }

    /** Removes field fcode; no effect if it is absent. */
    method RemoveField(fcode: NCode)
      modifies this
      ensures fcode !in fields
      ensures fields == old(fields) - {fcode}
      ensures old(fcode !in fields) ==> fields == old(fields)
      ensures mcode == old(mcode) && subs == old(subs)
    {
      fields := fields - {fcode};
    }

    /** Replaces the whole vector of submessages. */
    method SetSubMessages(s: seq<MessageValue>)
      modifies this
      ensures subs == s
      ensures mcode == old(mcode) && fields == old(fields)
    {
      subs := s;
    }

    /** Adds or overwrites field fcode with data; rejects multi-line data that
        does not end in a newline and then leaves the message unchanged. */
    method SetField(fcode: NCode, data: string) returns (r: Outcome)
      modifies this
      ensures r == (if WellFormedData(data) then Pass else Fail(ArgumentError))
      ensures r.Pass? ==> fields == old(fields)[fcode := data]
      ensures r.Fail? ==> fields == old(fields)
      ensures mcode == old(mcode) && subs == old(subs)
    {
      if '\n' in data && data[|data| - 1] != '\n' {
        return Fail(ArgumentError);
      }
      fields := fields[fcode := data];
      r := Pass;
    }

    /** Assigns the type code. */
    method SetMessageCode(c: NCode)
      modifies this
      ensures mcode == c
      ensures fields == old(fields) && subs == old(subs)
    {
      mcode := c;
    }
  }

  /** Setting a field and reading it back yields the data that was set, and
      every other field keeps its value. */
  method SetFieldThenGetField(m: Message, fcode: NCode, other: NCode, data: string)
    returns (got: Result<string>, before: Result<string>, after: Result<string>)
    requires WellFormedData(data) && other != fcode
    modifies m
    ensures got == Ok(data)
    ensures before == after
  {
    before := m.GetField(other);
    var ok := m.SetField(fcode, data);
    got := m.GetField(fcode);
    after := m.GetField(other);
  }

  /** After removing a field it no longer exists and reading it fails. */
  method RemoveFieldThenExists(m: Message, fcode: NCode) returns (present: bool, got: Result<string>)
    modifies m
    ensures !present
    ensures got == Err(ArgumentError)
  {
    m.RemoveField(fcode);
    present := m.Exists(fcode);
    got := m.GetField(fcode);
  }

  /** Setting and then getting the type code or the submessages round-trips. */
  method SetThenGetCodeAndSubs(m: Message, c: NCode, s: seq<MessageValue>) returns (c': NCode, s': seq<MessageValue>)
    modifies m
    ensures c' == c && s' == s
  {
    m.SetMessageCode(c);
    m.SetSubMessages(s);
    c' := m.GetMessageCode();
    s' := m.GetSubMessages();
  }
}
