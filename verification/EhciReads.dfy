/** The FAT reader on top of the EHCI transfers it causes. */
module EhciReads {
  import opened Bytes
  import opened FatVolume
  import opened FatReader
  import opened EhciTransfer

  /** What a transfer leaves behind its sectors is what it adds to the length. */
  lemma SpillIsWhatIsAdded(csw: seq<byte>, count: nat)
    ensures Usb2(csw).Spill(count) == TransferLength(count * BLOCK) - count * BLOCK
  {
  }

  /** The loader's step puts no toggles out of step. */
  lemma StepKeepsSync(reader: Reader, spc: nat)
    requires spc > 0 && !reader.Sd?
    ensures KeepsSync(TransferSectors(reader, spc))
  {
  }

  /** Main result: a file is read over EHCI, every read runs its transfers on the pipe while the
      file is read, each with the two toggles in step, and the pipe is in step at the end. */
  method ReadOverEhci(v: Volume, csw: seq<byte>, first: nat, buffer: array<byte>, offset: nat, length: nat,
                      dest: array<byte>, ghost chain: seq<nat>, pipe: InPipe)
    returns (ret: Status)
    requires v.Valid() && |csw| == CSW_SIZE && buffer.Length >= v.bytePerSect && buffer != dest
    requires offset < TWO_32 && length < TWO_32
    requires NoWrap(v, offset, length) ==> length + Usb2(csw).Spill(2) <= dest.Length
    requires pipe.InSync() && pipe.pending == []
    modifies buffer, dest, pipe
    ensures pipe.InSync() && pipe.pending == []
    ensures length > 0 && v.Plain() && InFile(v, first, chain, offset, length) && NoWrap(v, offset, length) ==>
              ret.Pass? && Copied(v, chain, offset, dest[..], length)
  {
    StepKeepsSync(Usb2(csw), v.sectPerClus);
    var drive := new Drive(TransferSectors(Usb2(csw), v.sectPerClus), pipe);
    ret := FatReadFile(v, drive, Usb2(csw), first, buffer, offset, length, dest, chain);
  }

  /** The five page pointers reach every byte of such a read, wherever its buffer starts. */
  lemma LoaderFitsPages(drive: Drive, reader: Reader, spc: nat, i: nat, addr: nat)
    requires drive.Ok() && spc > 0 && reader.Usb2? && drive.step == TransferSectors(reader, spc) && i < |drive.asked|
    ensures addr % PAGE + TransferLength(drive.asked[i] * BLOCK) <= POINTERS * PAGE
  {
    assert drive.asked[i] == 1 || drive.asked[i] == 8;
  }
}
