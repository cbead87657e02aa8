/** The reader's end of the channel (src/presentation/reader.rs). */
module ReaderSession {
  import opened Fips180
  import opened DigestTypes
  import opened SessionChannel

  datatype ResponseError = HolderError | DecryptionError | CborDecodingError

  class SessionManager {
    const skReader: Key
    const skDevice: Key
    const readerMessageCounter: MessageCounter
    const deviceMessageCounter: MessageCounter

    predicate Valid() {
      readerMessageCounter != deviceMessageCounter
    }

    function Value(): Endpoint
      reads readerMessageCounter, deviceMessageCounter
    {
      Endpoint(skReader, skDevice, readerMessageCounter.count, deviceMessageCounter.count)
    }

    constructor (skReader: Key, skDevice: Key)
      ensures Valid() && fresh(readerMessageCounter) && fresh(deviceMessageCounter)
      ensures Value() == Endpoint(skReader, skDevice, 0, 0)
    {
      this.skReader := skReader;
      this.skDevice := skDevice;
      readerMessageCounter := new MessageCounter();
      deviceMessageCounter := new MessageCounter();
    }

    /** `encoded` is the CBOR of the request, if it can be encoded. */
    method BuildRequest(encoded: Option<seq<Byte>>, backendFails: bool) returns (request: Option<Ciphertext>)
      requires Valid()
      modifies readerMessageCounter
      ensures encoded.None? ==> request == None && Value() == old(Value())
      ensures encoded.Some? ==> (request, Value()) == old(Value()).SealAsReader(encoded.value, backendFails)
    {
      if encoded.None? {
        return None;
      }
      request := readerMessageCounter.Encrypt(skReader, encoded.value, true, backendFails);
    }

    /** `envelope` is the session message, if it decodes, with its data, if it
        has any. A response that opens but does not decode still counts as
        received. */
    method DecryptResponse<Response>(envelope: Option<Option<Ciphertext>>, decode: seq<Byte> -> Option<Response>,
                                     backendFails: bool)
      returns (r: Result<Response, ResponseError>)
      requires Valid()
      modifies deviceMessageCounter
      ensures envelope.None? ==> r == Failure(CborDecodingError) && Value() == old(Value())
      ensures envelope == Some(None) ==> r == Failure(HolderError) && Value() == old(Value())
      ensures envelope.Some? && envelope.value.Some? ==>
                && Value() == old(Value()).OpenAsReader(envelope.value.value, backendFails).1
                && match old(Value()).OpenAsReader(envelope.value.value, backendFails).0
                   case None => r == Failure(DecryptionError)
                   case Some(plaintext) =>
                     r == if decode(plaintext).Some? then Success(decode(plaintext).value)
                     else Failure(CborDecodingError)
    {
      if envelope.None? {
        return Failure(CborDecodingError);
      }
      var data := envelope.value;
      if data.None? {
        return Failure(HolderError);
      }
      var plaintext := deviceMessageCounter.Decrypt(skDevice, data.value, false, backendFails);
      if plaintext.None? {
        return Failure(DecryptionError);
      }
      var response := decode(plaintext.value);
      if response.None? {
        return Failure(CborDecodingError);
      }
      r := Success(response.value);
    }
  }
}
