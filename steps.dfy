/** The steps the embed and extract pipelines of every handler share: reading
    the data file, copying the loaded pixels into the buffer the codec works
    on, and writing the recovered data out.  The file system is a parameter:
    the data file's contents (`None` when it cannot be opened) and whether
    the output file could be opened and written. */
module PipelineSteps {
  import opened Errors
  import opened Frame

  function OpenDataMessage(dataFile: string): string
  {
    "Failed to open data file '" + dataFile + "'"
  }

  function EmptyDataMessage(dataFile: string): string
  {
    "Data file '" + dataFile + "' is empty. Nothing to embed."
  }

  /** What writing the recovered data to `outputFile` reports. */
  function WriteOutput(outputFile: string, openOk: bool, writeOk: bool): (r: Result<()>)
    ensures r.IsSuccess() <==> openOk && writeOk
    ensures r.IsError() ==> r.GetErrorCode() == FileWriteError
  {
    if !openOk then Err(FileWriteError, "Failed to open output file '" + outputFile + "' for writing")
    else if !writeOk then Err(FileWriteError, "Failed to write data to '" + outputFile + "'")
    else Ok(())
  }

  /** The pixel vector the codec updates in place. */
  method CopyToBuffer(pixels: seq<byte>) returns (buffer: array<byte>)
    ensures fresh(buffer) && buffer[..] == pixels
  {
    buffer := new byte[|pixels|](i requires 0 <= i < |pixels| => pixels[i]);
  }
}
