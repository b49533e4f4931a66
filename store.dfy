/**
 * The two files the script writes, kept in memory: the dataset file
 * (`database_dump.json`) and the progress file (`status.txt`).
 */
module Store {
  import opened Wrappers
  import opened Numerals
  import opened Accumulator

  class Files {
    /** Content of the dataset file; None while the file does not exist. */
    var dataset: Option<Bytes>
    /** Content of the progress file; None while the file does not exist. */
    var status: Option<string>

    constructor (dataset: Option<Bytes>, status: Option<string>)
      ensures this.dataset == dataset && this.status == status
    {
      this.dataset := dataset;
      this.status := status;
    }

    /** `append_data_to_file(data, 'database_dump.json')`. On an existing
        file the parsed array is extended and written back from offset 0
        without truncation; an absent file is created with the new records
        only. A file that does not parse aborts the append (`ok` false) and
        is left as it was. */
    method AppendData(codec: Codec, data: seq<Record>) returns (ok: bool)
      modifies this
      ensures ok <==> Appended(codec, old(dataset), data).Success?
      ensures dataset == if ok then Some(Appended(codec, old(dataset), data).value) else old(dataset)
      ensures status == old(status)
    {
      match dataset {
        case None =>
          dataset := Some(codec.dump(data));
          ok := true;
        case Some(bytes) =>
          var fileData := codec.load(bytes);
          if fileData.None? {
            return false;
          }
          var list := fileData.value;
          list := list + data;
          var text := codec.dump(list);
          dataset := Some(Overwrite(bytes, text));
          ok := true;
      }
    }

    /** `update_status(page)`: the progress file is truncated and receives
        the decimal text of the page number. */
    method UpdateStatus(page: int)
      modifies this
      ensures status == Some(Decimal(page))
      ensures ParseDecimal(status.value) == Some(page)
      ensures dataset == old(dataset)
    {
      status := Some(Decimal(page));
      DecimalRoundTrip(page);
    }
  }
}
