/** The configuration the repository ships (include/lwip/lwipopts.h, include/lwip/opt.h)
    and the connection states in which data can be transferred. */
module TcpConfig {
  import opened SequenceNumbers

  const TCP_MSS: u16 := 536
  const TCP_WND: u16 := 5360
  const TCP_SND_BUF: u16 := 6432
  const TCP_SND_QUEUELEN: u16 := 40

  datatype Option<+T> = None | Some(value: T)

  /** The TCP states from ESTABLISHED on; Closed stands for a PCB being removed. */
  datatype State = Established | FinWait1 | FinWait2 | CloseWait | Closing | LastAck | TimeWait | Closed {
    /** state < CLOSE_WAIT: segment text is still accepted. */
    predicate AcceptsText() { Established? || FinWait1? || FinWait2? }

    /** On the list of active PCBs. */
    predicate Active() { !TimeWait? && !Closed? }
  }

  function Min(a: int, b: int): int { if a < b then a else b }
  function Max(a: int, b: int): int { if a < b then b else a }
}
