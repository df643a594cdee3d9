/** The narrow interface between the RAL and its bus driver: the status
    dictionary both sides exchange, the transaction the RAL hands over, and
    the driver itself, abstracted as a function of that transaction. */
module Bus {
  import opened Wrappers
  import opened LittleEndian

  /** A status dictionary `{"success": ..., "error": ...}`; `error` is None
      when the dictionary has no "error" key. */
  datatype Status = Status(success: bool, error: Option<string>)

  /** `{"success": False}`, the dictionary `_perform_transaction` hands the driver to fill in. */
  const InitialStatus: Status := Status(false, None)

  /** One call into the driver: `driver.write(addr, data_bytes, status)` or
      `driver.read(addr, data_bytes, status)`. */
  datatype BusTransaction = BusTransaction(address: int, data: seq<byte>, isWrite: bool)

  /** What the driver leaves behind: the status dictionary and the byte
      buffer (filled in on a read). */
  datatype DriverReply = DriverReply(status: Status, buffer: seq<byte>)

  /** The driver, seen from the RAL: given the transaction and the status it
      starts from, the status and buffer it leaves. */
  type BusDriver = (BusTransaction, Status) -> DriverReply
}
