/** The byte source of the reader (datastream.cpp), reduced to what the core
    relies on: a read of `len` bytes at an absolute byte offset either yields
    exactly `len` bytes or fails. Opening, seeking and short reads all end in
    failure; which requests fail is the device's business and is left free. */
module Streams {
  import opened Wrappers
  import opened LittleEndian

  /** What the device answers to a request (offset, length). */
  type Device = (nat, nat) -> Option<seq<Uint8>>

  /** The outcome of `DataStream::read`: the device's bytes, or failure when
      the device fails or hands back fewer (or more) bytes than asked for. */
  function ReadAt(device: Device, offset: nat, len: nat): (r: Option<seq<Uint8>>)
    ensures r.Some? ==> |r.value| == len && Some(r.value) == device(offset, len)
    ensures device(offset, len).Some? && |device(offset, len).value| == len ==> r.Some?
  {
    var d := device(offset, len);
    if d.Some? && |d.value| == len then d else None
  }

  /** A device that is a healthy image file: every request inside the image
      is served with the image's bytes, and every other request is a short
      read, except that a request for no bytes succeeds empty wherever it
      seeks, as a seek past the end of a file does. */
  ghost predicate ImageBacked(device: Device, image: seq<Uint8>)
  {
    forall offset: nat, len: nat {:trigger device(offset, len)} ::
      device(offset, len) == ImageAnswer(image, offset, len)
  }

  /** What a healthy image file answers to the request (offset, len). */
  function ImageAnswer(image: seq<Uint8>, offset: nat, len: nat): Option<seq<Uint8>>
  {
    if offset + len <= |image| then Some(image[offset..offset + len])
    else if len == 0 then Some([])
    else None
  }

  lemma ImageRead(device: Device, image: seq<Uint8>, offset: nat, len: nat)
    requires ImageBacked(device, image)
    ensures ReadAt(device, offset, len)
            == if offset + len <= |image| then Some(image[offset..offset + len])
               else if len == 0 then Some([]) else None
  {
    assert device(offset, len) == ImageAnswer(image, offset, len);
  }

  /** `DataStream`: the device handle shared by the file system and all its
      entries. The ghost `log` records every request, so that contracts can
      say which reads an operation issues. */
  class DataStream {
    const device: Device
    ghost var log: seq<(nat, nat)>

    constructor (device: Device)
      ensures this.device == device && log == []
    {
      this.device := device;
      log := [];
    }

    method Read(offset: nat, len: nat) returns (data: Option<seq<Uint8>>)
      modifies this
      ensures data == ReadAt(device, offset, len)
      ensures log == old(log) + [(offset, len)]
    {
      data := ReadAt(device, offset, len);
      log := log + [(offset, len)];
    }
  }
}
