/**
 * ot::Message as a growable byte buffer: append, read, compare, write in
 * place, strip a footer, clone; the FooterData trailer helpers that keep a
 * fixed-size record at the end of a message; and FreeMessageOnError.
 */
module MessageBuffer {
  import opened Common

  /** The bytes a read finds from an offset: at most `length`, fewer when the message ends first. */
  function Available(bytes: seq<uint8>, offset: nat, length: nat): (count: nat)
    ensures count <= length
    ensures offset + count <= |bytes| || count == 0
    ensures count == length <==> offset + length <= |bytes| || length == 0
  {
    if offset >= |bytes| then 0
    else if |bytes| - offset < length then |bytes| - offset
    else length
  }

  /** The message after `data` is written at `offset` (the length does not change). */
  function Written(bytes: seq<uint8>, offset: nat, data: seq<uint8>): (result: seq<uint8>)
    requires offset + |data| <= |bytes|
    ensures |result| == |bytes|
    ensures result[offset..offset + |data|] == data
    ensures forall i | 0 <= i < |bytes| && !(offset <= i < offset + |data|) :: result[i] == bytes[i]
  {
    bytes[..offset] + data + bytes[offset + |data|..]
  }

  /** The trailing `size` bytes: where a FooterData record is read from. */
  function Footer(bytes: seq<uint8>, size: nat): seq<uint8>
    requires size <= |bytes|
  {
    bytes[|bytes| - size..]
  }

  /** The message after RemoveFooter(length): as many trailing bytes as there are, up to `length`, are gone. */
  function WithoutFooter(bytes: seq<uint8>, length: nat): (result: seq<uint8>)
    ensures |result| == if length <= |bytes| then |bytes| - length else 0
    ensures result == bytes[..|result|]
  {
    if length <= |bytes| then bytes[..|bytes| - length] else []
  }

  class Message {
    var bytes: seq<uint8>
    /** The read/write offset the stack keeps with the message; Clone copies it. */
    var offset: uint16
    var priority: nat
    var freed: bool

    /** The length is a uint16. */
    ghost predicate Valid()
      reads this
    {
      |bytes| <= Uint16Max
    }

    constructor (initial: seq<uint8>, messageOffset: uint16, messagePriority: nat)
      requires |initial| <= Uint16Max
      ensures Valid() && bytes == initial && offset == messageOffset && priority == messagePriority && !freed
    {
      bytes := initial;
      offset := messageOffset;
      priority := messagePriority;
      freed := false;
    }

    function Length(): nat
      reads this
    {
      |bytes|
    }

    /**
     * AppendBytes: on success the message grows by exactly the appended
     * bytes; NoBufs (and no change) when the pool cannot supply the buffers
     * or the length would not fit in a uint16.
     */
    method AppendBytes(data: seq<uint8>, buffersAvailable: bool) returns (error: Error)
      requires Valid() && |data| <= Uint16Max
      modifies this`bytes
      ensures Valid()
      ensures error == NoError || error == NoBufs
      ensures error == NoError <==> buffersAvailable && |old(bytes)| + |data| <= Uint16Max
      ensures error == NoError ==> bytes == old(bytes) + data
      ensures error != NoError ==> bytes == old(bytes)
    {
      if !buffersAvailable || |bytes| + |data| > Uint16Max {
        return NoBufs;
      }
      bytes := bytes + data;
      return NoError;
    }

    /** ReadBytes: the bytes from `offset`, as many as requested or as remain. */
    method ReadBytes(from: uint16, length: uint16) returns (data: seq<uint8>)
      ensures |data| == Available(bytes, from, length)
      ensures data == [] || (from + |data| <= |bytes| && data == bytes[from..from + |data|])
    {
      var count := Available(bytes, from, length);
      data := [];
      var i := 0;
      while i < count
        invariant 0 <= i <= count
        invariant from + count <= |bytes| || count == 0
        invariant count > 0 ==> data == bytes[from..from + i]
        invariant count == 0 ==> data == []
      {
        data := data + [bytes[from + i]];
        i := i + 1;
      }
    }

    /** Read: the requested bytes, or Parse when fewer remain. */
    method Read(from: uint16, length: uint16) returns (error: Error, data: seq<uint8>)
      ensures error == NoError || error == Parse
      ensures error == NoError <==> from + length <= |bytes| || length == 0
      ensures error == NoError ==> |data| == length && (length == 0 || data == bytes[from..from + length])
    {
      data := ReadBytes(from, length);
      error := if |data| == length as int then NoError else Parse;
    }

    /** CompareBytes: false whenever fewer than |expected| bytes remain, else whether they match. */
    method CompareBytes(from: uint16, expected: seq<uint8>) returns (equal: bool)
      requires |expected| <= Uint16Max
      ensures equal <==> from + |expected| <= |bytes| && bytes[from..from + |expected|] == expected
    {
      if from + |expected| > |bytes| {
        return false;
      }
      var i := 0;
      while i < |expected|
        invariant 0 <= i <= |expected|
        invariant bytes[from..from + i] == expected[..i]
      {
        if bytes[from + i] != expected[i] {
          assert bytes[from..from + |expected|][i] != expected[i];
          return false;
        }
        assert bytes[from..from + i + 1] == bytes[from..from + i] + [bytes[from + i]];
        i := i + 1;
      }
      assert expected[..i] == expected;
      return true;
    }

    /** WriteBytes: overwrite in place; the data must lie within the message, which never grows. */
    method WriteBytes(from: uint16, data: seq<uint8>)
      requires from + |data| <= |bytes|
      modifies this`bytes
      ensures bytes == Written(old(bytes), from, data)
    {
      var i := 0;
      while i < |data|
        invariant 0 <= i <= |data| && |bytes| == |old(bytes)|
        invariant forall k | 0 <= k < |bytes| ::
                    bytes[k] == if from <= k < from + i then data[k - from] else old(bytes)[k]
      {
        bytes := bytes[from + i := data[i]];
        i := i + 1;
      }
      assert bytes == Written(old(bytes), from, data);
    }

    /** RemoveFooter: drop `length` trailing bytes, or every byte when there are fewer. */
    method RemoveFooter(length: uint16)
      modifies this`bytes
      ensures bytes == WithoutFooter(old(bytes), length)
    {
      if length as int <= |bytes| {
        bytes := bytes[..|bytes| - length as int];
      } else {
        bytes := [];
      }
    }

    /**
     * Clone(length): a new message holding the first `length` bytes, with the
     * offset and priority copied; null when no buffers are available.
     */
    method Clone(length: uint16, buffersAvailable: bool) returns (copy: Message?)
      requires length as int <= |bytes|
      ensures buffersAvailable <==> copy != null
      ensures copy != null ==> fresh(copy) && copy.Valid() && copy.bytes == bytes[..length]
                               && copy.offset == offset && copy.priority == priority && !copy.freed
    {
      if !buffersAvailable {
        return null;
      }
      copy := new Message(bytes[..length], offset, priority);
    }

    /** Clone(): Clone(GetLength()), a copy of the whole message. */
    method CloneAll(buffersAvailable: bool) returns (copy: Message?)
      requires Valid()
      ensures buffersAvailable <==> copy != null
      ensures copy != null ==> fresh(copy) && copy.bytes == bytes && copy.offset == offset && copy.priority == priority
    {
      copy := Clone(|bytes| as uint16, buffersAvailable);
      if copy != null {
        assert bytes[..|bytes|] == bytes;
      }
    }

    // FooterData<DataType>: a record of `size` bytes kept at the end of the message.

    /** FooterData::AppendTo. */
    method AppendFooter(record: seq<uint8>, buffersAvailable: bool) returns (error: Error)
      requires Valid() && |record| <= Uint16Max
      modifies this`bytes
      ensures Valid()
      ensures error == NoError <==> buffersAvailable && |old(bytes)| + |record| <= Uint16Max
      ensures error == NoError ==> bytes == old(bytes) + record && Footer(bytes, |record|) == record
      ensures error != NoError ==> bytes == old(bytes)
    {
      error := AppendBytes(record, buffersAvailable);
      if error == NoError {
        FooterAfterAppend(old(bytes), record);
      }
    }

    /** FooterData::ReadFrom: the record must have been appended before. */
    method ReadFooter(size: uint16) returns (record: seq<uint8>)
      requires Valid() && size as int <= |bytes|
      ensures record == Footer(bytes, size as int)
    {
      var error;
      error, record := Read((|bytes| - size as int) as uint16, size);
      if size == 0 {
        record := [];
      }
    }

    /** FooterData::UpdateIn: rewrite the record over the old one; the length stays. */
    method UpdateFooter(record: seq<uint8>)
      requires |record| <= |bytes| && Valid()
      modifies this`bytes
      ensures |bytes| == |old(bytes)|
      ensures Footer(bytes, |record|) == record
      ensures bytes[..|bytes| - |record|] == old(bytes)[..|bytes| - |record|]
    {
      WriteBytes((|bytes| - |record|) as uint16, record);
    }

    /** FooterData::RemoveFrom. */
    method RemoveFooterRecord(size: uint16)
      modifies this`bytes
      ensures bytes == WithoutFooter(old(bytes), size as int)
    {
      RemoveFooter(size);
    }
  }

  /** FreeMessageOnError: free only when the error is not None and there is a message. */
  method FreeMessageOnError(message: Message?, error: Error)
    modifies message
    ensures message != null ==> (message.freed <==> old(message.freed) || error != NoError)
    ensures message != null ==> message.bytes == old(message.bytes)
  {
    if error != NoError && message != null {
      message.freed := true;
    }
  }

  // ---------------------------------------------------------------------
  // The trailer round trips
  // ---------------------------------------------------------------------

  /** AppendTo then ReadFrom gives back the record. */
  lemma FooterAfterAppend(bytes: seq<uint8>, record: seq<uint8>)
    ensures Footer(bytes + record, |record|) == record
  {
  }

  /** RemoveFrom after AppendTo restores the message. */
  lemma RemoveAfterAppend(bytes: seq<uint8>, record: seq<uint8>)
    ensures WithoutFooter(bytes + record, |record|) == bytes
  {
  }

  /** UpdateIn then ReadFrom gives back the new record and keeps everything before it. */
  lemma FooterAfterUpdate(bytes: seq<uint8>, record: seq<uint8>)
    requires |record| <= |bytes|
    ensures var updated := Written(bytes, |bytes| - |record|, record);
            |updated| == |bytes| && Footer(updated, |record|) == record
            && updated[..|bytes| - |record|] == bytes[..|bytes| - |record|]
  {
  }
}
