# The reliability engine of UDT, verified

A Dafny model of the part of the UDT library (`udt4/src`) that turns a network which loses, repeats and reorders
packets into an exact byte stream, and proofs about it. `dafny verify dfyconfig.toml` checks everything.

## What is modelled

The protocol, three layers deep:

* `Protocol.dfy` holds the atomic, lock-protected steps of class `CUDT` as functions on the state of each half of a
  connection, over unbounded sequence numbers; only the comparisons with the last confirmed ACK, which may lie any
  distance back, are made on wrapped numbers as in the code. `ProtocolRun.dfy` puts two parties and a network
  together; the network keeps every packet ever sent, so each may arrive never, once or many times, in any order, at
  any later moment. A `fault` flag records a touch of a missing block or slot. Taking a number from the sender's loss
  list and reading its block are two steps, as in `packData`.
* `ProtocolSafety.dfy` proves the invariant of every run, `ProtocolTheorems.dfy` states what follows from it for the
  two applications. `ProtocolWidth.dfy` bounds how far the numbers of a run spread, `ProtocolProgress.dfy` and
  `ProtocolDeadlock.dfy` prove exactly when the two sides can go on, `ProtocolReach.dfy` builds runs that go to the
  limits, and `WindowTheorems.dfy` says exactly when the loss lists are wide enough. `ProtocolLaws.dfy` says of each
  step when it acts in a reachable state and exactly what it does, in the terms of the cursors and of the bytes.
* `SenderHalf.dfy` and `ReceiverHalf.dfy` are the two halves of `CUDT` as classes with wrapped 31-bit fields, built on
  the classes below. Each method is proved to take exactly the protocol step of the same kind. `Connection.dfy` joins
  them over a network of wrapped packets: any sequence of its calls is a run of the protocol, every precondition of
  the halves is discharged, and what `Recv` has returned is always the start of what was given to send.

The structures, each a class that works in place and is proved against a simple specification:

* `SndLossList.dfy`, `RcvLossList.dfy` (with `Intervals.dfy`, `LossArrays.dfy`, `RcvLossArrays.dfy`): finite sets kept
  as linked intervals in circular arrays. `LossReport.dfy`: the words of a loss report and their decoding.
* `SndBuffer.dfy`: the growing ring of blocks. `RcvBuffer.dfy`: the circular array of units as a byte queue and,
  against `MsgModel.dfy`, as a mailbox; `MsgRun.dfy` follows message mode over whole runs, and `MsgStamps.dfy` shows
  that the boundary bits it relies on are the ones `addBuffer` sets.
* `AckWindow.dfy` against `AckHistory.dfy`; `PktTimeWindow.dfy`, the median filter; `SndUList.dfy` against
  `HeapModel.dfy`, with `HeapRun.dfy` for whole runs; `RcvUList.dfy`, the list of the timer sweep; `Md5.dfy` against
  `Md5Model.dfy` (RFC 1321).
* `SeqNo.dfy`, `Numbers.dfy`, `Bytes.dfy`: sequence-number arithmetic and common ground.

In classes, ghost parameters and ghost fields carry the unbounded number behind each wrapped one; `Wrap(n)` is `n`
modulo 2^31.

## Assumptions

* Packets are not so old that a sequence number is half a wrap behind: wherever a wrapped number arrives, the
  unbounded number it stands for is less than 2^30 - 1 away from the cursors it is compared with. This is `Fresh` for
  the steps of a run, and the precondition `Near`, or `Reportable` for loss reports, of the methods. Nothing of the
  kind is assumed about `m_iRcvLastAckAck`.
* The initial flow window is at most 2^30 - 3 packets and the receive buffer at most 2^30 - 2.
* The peer is honest: the network holds only what the two parties sent. That the refusing branches are then never
  taken is proved, not assumed.
* The initial number is at least 1 (`m_iISN - 1` is computed without `decseq`), and user buffers are not empty.
* Time is an input: clock readings are parameters, and the comparisons the code makes with timers are booleans. Each
  lock-protected region is one atomic step, and the window check of `packData` reads the flow window and the last
  acknowledged number in one step. The congestion window is an arbitrary input.

## Findings

* `core.cpp:706` explains the factor 2 in the size of the sender's loss list by late clearing after lite ACKs. A lite
  ACK leaves the right edge of the flow window where it is; what the factor does buy is room for a peer whose receive
  buffer is wider than its flight flag size, and `SenderListFits` gives the exact condition: the list is wide enough
  in every run if and only if the receive buffer's size less 1 is at most twice the initial flow window.
  `ReceiverListFits` gives the one of the receiver's list. Both can fail: setting `UDT_FC` (`core.cpp:249-262`) lowers
  the flight flag size and leaves the receive buffer at its 8192 slots, against the note at `core.cpp:106`, and
  `LoweredFlightFlag` has the runs in which, at a flight flag size of 64, lost numbers lie further apart than either
  list has slots. With the defaults both always fit (`DefaultsFit`).
* `core.cpp:1672` gives breaking a deadlock as the reason for a minimum flow window of 2. `NoDeadlock` and
  `ShutForever` prove when that works. It needs an initial flow window of at least 1 and at least 2 slots in the
  receive buffer, and it needs the last confirmed ACK not to be too old: `seqcmp` at `core.cpp:1662` takes an ACK for
  news up to 2^30 - 2 numbers after `m_iRcvLastAckAck`, at some places of the circle up to 2^30 + 1, and not beyond
  (`CmpRange`). If every ACK2 is lost that long, full ACKs stop, lite ACKs use the window up, and nothing more is ever
  delivered: `DeadlockIsReached` has such a run from every start.
* `getPktRcvSpeed` (`window.cpp:235-261`) works in 32-bit integers. Its sum of samples can wrap to a value smaller
  than their number, and then `window.cpp:261` divides by zero; it can wrap to a negative one, and then a rate of 1 is
  returned as 0. `DividesByZero` and `NegativeSum` give the samples, `ZeroDivisor` and `FitsExactly` the conditions.
* `remove_` of the send heap lets the moved entry sink but never rise, so it can break heap order; `RemovedOrder`
  gives the exact condition, `BrokenOrderShows` a heap on which a socket is then served out of turn, and `OrderedRuns`
  says in which runs order holds.
* `scanMsg` takes a buffer with one unacknowledged unit in its first slot for empty (`m_iMaxPos <= 0`), so a
  one-packet message that may be read out of order stays there: `MissedMessage` is the run. `FoundExactly` and
  `ReceiveDelivers` prove that this is the only case: a message to deliver is found if and only if something is
  acknowledged or some other slot holds a unit too.
* The comment on `seqoff` in `common.h:214` gives its direction the other way round: the code returns the offset from
  the first number to the second, which is what `OffRefines` states and every caller relies on.

## Model

| member | source | states |
|---|---|---|
| `ProtocolTheorems.DeliveryIsExact` | udt4/src/core.cpp:2126-2326 | In every state of every run, over a network that loses, repeats and reorders data, ACK, lite ACK, loss reports and ACK2, the bytes delivered followed by the readable ones equal the sent bytes of the numbers from the initial one up to m_iRcvLastAck; delivery is a prefix of what was given to send |
| `ProtocolTheorems.DeliveryOnlyGrows` | udt4/src/core.cpp:2126-2326 | What was delivered at one moment is a prefix of what is delivered at any later one, and so is the input |
| `ProtocolTheorems.NothingGoesWrong` | udt4/src/core.cpp:2287-2292 | No reachable step touches a missing block or slot, honest peers never take the branch that breaks the connection, the receive buffer is never overfull, and the ring distance is m_iSndCurrSeqNo + 1 - m_iSndLastDataAck |
| `ProtocolTheorems.LossListIsExact` | udt4/src/core.cpp:2287-2323 | In every reachable state the receiver's loss list is exactly the set of empty slots between m_iRcvLastAck and m_iRcvCurrSeqNo, so an ACK carries the least number not received and ackData exposes filled slots only |
| `ProtocolTheorems.NeverFreedEarly` | udt4/src/core.cpp:1870-1893 | Every sent number the receiver lacks is still in the send buffer, at its distance from m_iSndLastDataAck, with the bytes it was given |
| `ProtocolTheorems.CursorsAreOrdered` | udt4/src/core.cpp:1821-2044 | m_iSndLastDataAck <= m_iSndLastAck <= least missing number <= m_iRcvCurrSeqNo + 1 <= m_iSndCurrSeqNo + 1; the sender's losses lie between its cursors; no ACK in flight is above the least missing number; m_iRcvLastAckAck <= m_iSndLastAck |
| `ProtocolTheorems.RetransmissionsAgree` | udt4/src/core.cpp:2138-2149 | Any two transmissions of the same number, at any two moments of a run, carry the same bytes |
| `ProtocolTheorems.NoDeadlock` | udt4/src/core.cpp:1662-1674 | From a reachable state with everything in flight lost, some continuation delivers every byte given to send if and only if all of it can be sent without a further ACK, or some number the receiver can still come to acknowledge is news to seqcmp at m_iRcvLastAckAck; it is so whenever fewer than 2^30 - 1 numbers were sent since the last confirmed one |
| `ProtocolTheorems.NeverAFullCircle` | udt4/src/core.cpp:1619-1626 | Though ACK2 may be lost for ever, the number an ACK carries is never a full circle past the last confirmed one, so equal wrapped numbers are equal |
| `ProtocolTheorems.ShutForever` | udt4/src/core.cpp:2177-2181 | The converse: with an initial flow window below 1, or a receive buffer of one slot, nothing is ever delivered |
| `WindowTheorems.AlwaysBounded` | udt4/src/core.cpp:2177-2181 | In every run, lost ACKs or not, the cursors of both halves stay close enough for their wrapped comparisons |
| `WindowTheorems.SenderListFits` | udt4/src/core.cpp:706-707 | The loss list of twice the initial flow window is wide enough in every run if and only if the receive buffer size less 1 is at most twice the initial flow window |
| `WindowTheorems.ReceiverListFits` | udt4/src/core.cpp:708 | The receiver loss list of a given size is wide enough in every run if and only if the receive buffer size less 2 is at most that size |
| `WindowTheorems.LoweredFlightFlag` | udt4/src/core.cpp:249-262 | With UDT_FC set to 64 and the receive buffer left at 8192 there are runs in which lost numbers lie further apart than either list has slots |
| `WindowTheorems.DefaultsFit` | udt4/src/core.cpp:104-106 | With the default sizes both lists are wide enough in every run |
| `ProtocolWidth.NarrowStep` | udt4/src/core.cpp:1825-1869 | No step lets the sent numbers, or the right edge of the flow window, go further beyond the freed part than the widest window ever told |
| `ProtocolWidth.LagStep` | udt4/src/core.cpp:1662-1692 | Every step keeps the ACKs in flight and the records of the ACK window within 2^30 + 1 numbers after the last confirmed one, the records in order |
| `ProtocolDeadlock.DeliversIff` | udt4/src/core.cpp:1662-1674 | In a state with nothing in flight delivery of everything is possible if and only if the two sides can go on in the sense of NoDeadlock |
| `ProtocolDeadlock.StuckStep` | udt4/src/core.cpp:1662-1674 | Once no number that can come about is news, every step of either side keeps it so |
| `ProtocolReach.DeadlockIsReached` | udt4/src/core.cpp:1662-1663 | From every start with at least 2 slots there is a run, with every ACK2 lost, after which the ACK due is not sent although its number was never confirmed, and once what is in flight is lost no continuation delivers the data |
| `WindowTheorems.RingDistance` | udt4/src/buffer.cpp:120-331 | In every reachable state seqoff(m_iSndLastDataAck, incseq(m_iSndCurrSeqNo)) is the distance from m_pFirstBlock to m_pCurrBlock |
| `ProtocolLaws.RunLives` | udt4/src/core.cpp:1597-2500 | Every state of a run within the size limits is one the laws below speak of |
| `ProtocolLaws.BytesEnter` | udt4/src/buffer.cpp:120-164 | send appends exactly its bytes to all that was given, cut into the fewest blocks of at most MSS bytes, none empty |
| `ProtocolLaws.FreshPacketLeaves` | udt4/src/core.cpp:2177-2206 | A fresh packet leaves if and only if a block was never sent and the packets sent and not acknowledged are fewer than the flow window and fewer than the congestion window; it is the next number with the next block |
| `ProtocolLaws.LostPacketLeaves` | udt4/src/core.cpp:2138 | The number taken for retransmission is the least lost one, and only it leaves the loss list |
| `ProtocolLaws.PickedPacketLeaves` | udt4/src/core.cpp:2140-2168 | The picked number leaves with the bytes first given under it, unless they were freed meanwhile |
| `ProtocolLaws.LiteAckTaken` | udt4/src/core.cpp:1825-1836 | A lite ACK moves the left edge of the flow window, never backwards, and leaves the right edge where it is |
| `ProtocolLaws.AckAnswered` | udt4/src/core.cpp:1838-1849 | A full ACK is answered by an ACK2 if and only if the timer says so or it is the ACK answered last |
| `ProtocolLaws.AckTaken` | udt4/src/core.cpp:1863-1893 | A full ACK sets the flow window and m_iSndLastAck unless a later ACK came first, and frees exactly the blocks and losses below its number |
| `ProtocolLaws.AckRefused` | udt4/src/core.cpp:1854-1861 | An ACK breaks the connection if and only if its number is above m_iSndCurrSeqNo + 1, and then does nothing else |
| `ProtocolLaws.NakTaken` | udt4/src/core.cpp:1990-2027 | A loss report in flight enters exactly the numbers it names that are not below m_iSndLastAck, and changes nothing else |
| `ProtocolLaws.ReportEnters` | udt4/src/core.cpp:1990-2035 | Any report, honest or not, breaks the connection if and only if some range of it is reversed or above m_iSndCurrSeqNo, and enters exactly what comes before the first such range |
| `ProtocolLaws.TimeoutTaken` | udt4/src/core.cpp:2479-2489 | An expired timer takes for lost exactly the numbers from m_iSndLastAck to m_iSndCurrSeqNo |
| `ProtocolLaws.DataTaken` | udt4/src/core.cpp:2287-2323 | A data packet is stored if and only if its number is not acknowledged, one of the free slots is its own, one slot left empty, and nothing is there yet; exactly the numbers it skips become lost and are reported at once, and it is itself lost no more |
| `ProtocolLaws.BytesLeave` | udt4/src/buffer.cpp:392-427 | recv hands over exactly the first min(len, ready) bytes, and keeps the rest ready |
| `ProtocolLaws.LiteAckLeaves` | udt4/src/core.cpp:1607-1626 | A lite ACK with the least missing number leaves unless that number is the last confirmed one |
| `ProtocolLaws.FullAckLeaves` | udt4/src/core.cpp:1603-1698 | A full ACK leaves if and only if the least missing number is above m_iRcvLastAck, or equals it and the last ACK is older than the bound, and seqcmp takes it for news at m_iRcvLastAckAck; it has the next ACK number and the free room, at least 2, and is recorded; otherwise count, records and network stay as they are |
| `ProtocolLaws.AckPointMoves` | udt4/src/core.cpp:1631-1660 | Whether it leaves or not, m_iRcvLastAck moves to the least missing number, and exactly the payloads below it become readable |
| `ProtocolLaws.Ack2Taken` | udt4/src/core.cpp:1948-1977 | An ACK2 confirms the number recorded with its ACK if that ACK is still recorded, was sent earlier, and its number is news; it and all records before it are forgotten |
| `ProtocolLaws.AckIsRemembered` | udt4/src/window.cpp:83-150 | In every run the record of an ACK is found, as it was made, while fewer than size - 1 ACKs followed it and neither it nor a later one was confirmed |
| `ProtocolSafety.InitInv` | udt4/src/core.cpp:566-570 | The invariant of the two parties and the network holds when a connection starts |
| `ProtocolSafety.StepKeeps` | udt4/src/core.cpp:1597-2500 | Every step of either party keeps the invariant |
| `ProtocolSafety.RunInv` | udt4/src/core.cpp:1597-2500 | Hence every state of every run satisfies it |
| `ProtocolSafety.LowIs` | udt4/src/core.cpp:1607-1612 | The number an ACK carries is between m_iRcvLastAck and m_iRcvCurrSeqNo + 1, everything below it is stored, and it is lost itself unless nothing is |
| `ProtocolSafety.SendKeeps` | udt4/src/buffer.cpp:120-164 | Adding a user buffer keeps the invariant |
| `ProtocolSafety.PickKeeps` | udt4/src/core.cpp:2138 | Taking a number from the sender's loss list keeps it |
| `ProtocolSafety.SendRetransmissionKeeps` | udt4/src/core.cpp:2140-2168 | The guarded buffer read that follows, at any later moment, keeps it |
| `ProtocolSafety.SendFreshKeeps` | udt4/src/core.cpp:2177-2206 | Sending a fresh packet within the window keeps it |
| `ProtocolSafety.LiteAckKeeps` | udt4/src/core.cpp:1825-1836 | Processing a lite ACK keeps it |
| `ProtocolSafety.AckKeeps` | udt4/src/core.cpp:1838-1893 | Processing a full ACK keeps it, the ACK2 reply included |
| `ProtocolSafety.NakIsHonest` | udt4/src/core.cpp:1979-2044 | A loss report that names received or lost numbers only is never taken for an attack, changes nothing but the loss list, and enters sent numbers only |
| `ProtocolSafety.NakKeeps` | udt4/src/core.cpp:1979-2044 | Processing a loss report keeps the invariant |
| `ProtocolSafety.TimeoutKeeps` | udt4/src/core.cpp:2479-2489 | The expiration timer keeps it |
| `ProtocolSafety.DataKeepsReceiver` | udt4/src/core.cpp:2287-2323 | Storing a data packet keeps the receiver's books exact after a gap, in order, and late |
| `ProtocolSafety.DataMovesForward` | udt4/src/core.cpp:2287-2323 | A data packet never lowers the least missing number, and its loss report names numbers seen only |
| `ProtocolSafety.DataKeeps` | udt4/src/core.cpp:2251-2326 | Processing a data packet keeps the invariant |
| `ProtocolSafety.LiteAckEmitKeeps` | udt4/src/core.cpp:1614-1626 | Sending a lite ACK keeps it |
| `ProtocolSafety.AdvanceKeeps` | udt4/src/core.cpp:1631-1638 | Moving the acknowledgement point exposes exactly the next payloads of the input and keeps the books |
| `ProtocolSafety.AckEmitKeeps` | udt4/src/core.cpp:1603-1698 | Sending a full ACK keeps the invariant |
| `ProtocolSafety.SendAckHistory` | udt4/src/core.cpp:1662-1692 | The ACK window and the packets in flight agree about the data number of every ACK |
| `ProtocolSafety.NakEmitKeeps` | udt4/src/core.cpp:1728-1748 | Sending a periodic loss report keeps the invariant |
| `ProtocolSafety.Ack2Confirms` | udt4/src/core.cpp:1948-1977 | An ACK2 can only raise m_iRcvLastAckAck to a data number the sender has processed |
| `ProtocolSafety.Ack2Keeps` | udt4/src/core.cpp:1948-1977 | Processing an ACK2 keeps the invariant |
| `ProtocolSafety.ReadIsPrefix` | udt4/src/buffer.cpp:392-427 | readBuffer returns the first min(len, available) readable bytes and leaves the rest readable |
| `ProtocolSafety.ReadLeaves` | udt4/src/buffer.cpp:392-427 | The units it leaves are the last ones, with the notch inside the first of them |
| `ProtocolSafety.ReadKeeps` | udt4/src/buffer.cpp:392-427 | Reading keeps the invariant |
| `ProtocolProgress.WindowKeeps` | udt4/src/core.cpp:1825-1869 | Every step keeps this: if the receiver knows that its last ACK arrived, and so will not repeat it, the flow window is open |
| `ProtocolProgress.Drain` | udt4/src/core.cpp:2138-2168 | The sender can send again every number of its loss list, each with its own block |
| `ProtocolProgress.Settle` | udt4/src/core.cpp:1603-1698 | The receiver can acknowledge and hand over everything below the least missing number, and sends its ACK as long as the number is news |
| `ProtocolProgress.FillOne` | udt4/src/core.cpp:2479-2489 | After a timeout the least missing number that was sent can arrive and is accepted |
| `ProtocolProgress.SendTo` | udt4/src/core.cpp:2177-2206 | Without a further ACK the two sides can come to any missing number the flow window reaches |
| `ProtocolProgress.Exchange` | udt4/src/core.cpp:1662-1696 | An ACK that is news, and the ACK2 that answers it, can arrive; they open the window and confirm the number |
| `ProtocolProgress.DeliverAll` | udt4/src/core.cpp:1597-2500 | From a good state all input can be delivered if some number that can be acknowledged is news |
| `SenderHalves.SenderHalf.constructor` | udt4/src/core.cpp:566-570 | The sending half starts at the protocol's initial sender for this initial number |
| `SenderHalves.SenderHalf.Send` | udt4/src/buffer.cpp:120-164 | Takes exactly the protocol's step: the user buffer becomes blocks behind the present ones |
| `SenderHalves.SenderHalf.PickLostSeq` | udt4/src/core.cpp:2138 | Takes the least lost number, in wrapped form, and nothing when there is none |
| `SenderHalves.SenderHalf.PackLost` | udt4/src/core.cpp:2140-2168 | Retransmits the block first sent under the number, or skips a number acknowledged meanwhile |
| `SenderHalves.SenderHalf.PackFresh` | udt4/src/core.cpp:2177-2206 | Sends the next fresh block, under the next number, if and only if there is one and both the flow window and the congestion window exceed the number of packets not acknowledged; otherwise nothing changes |
| `SenderHalves.SenderHalf.ProcessLiteAck` | udt4/src/core.cpp:1825-1836 | Takes exactly the protocol's step for a lite ACK |
| `SenderHalves.SenderHalf.ProcessAck` | udt4/src/core.cpp:1838-1893 | Takes exactly the protocol's step for a full ACK, refusal of a number never sent and ACK2 reply included |
| `SenderHalves.SenderHalf.TakeAck` | udt4/src/core.cpp:1851-1893 | The data part of that step |
| `SenderHalves.SenderHalf.FreeAcked` | udt4/src/core.cpp:1870-1893 | Frees the acknowledged blocks and exactly their losses |
| `SenderHalves.SenderHalf.ProcessNak` | udt4/src/core.cpp:1979-2044 | Decodes the words of a loss report and takes exactly the protocol's step for the ranges they stand for |
| `SenderHalves.SenderHalf.Expire` | udt4/src/core.cpp:2479-2489 | Takes exactly the protocol's timeout step |
| `Connections.Connection.constructor` | udt4/src/core.cpp:700-712 | Both halves at the start of a run, with lists of the sizes the code gives them, when the sizes meet the exact conditions of the loss lists |
| `Connections.Connection.SendBytes` | udt4/src/buffer.cpp:120-164 | The protocol takes its sending step |
| `Connections.Connection.PickLostSeq` | udt4/src/core.cpp:2138 | The protocol takes the least lost number, if there is one |
| `Connections.Connection.Retransmit` | udt4/src/core.cpp:2140-2168 | The protocol takes its retransmission step, and the packet that leaves stands for the one it sends |
| `Connections.Connection.SendNext` | udt4/src/core.cpp:2177-2206 | The same for a fresh packet |
| `Connections.Connection.TakeLiteAck` | udt4/src/core.cpp:1825-1836 | A wrapped lite ACK in flight is taken as the protocol takes the one it stands for |
| `Connections.Connection.TakeAck` | udt4/src/core.cpp:1838-1893 | A wrapped full ACK in flight is taken as the protocol takes the one it stands for; the answer stands for its answer |
| `Connections.Connection.TakeNak` | udt4/src/core.cpp:1979-2044 | The words of a loss report in flight are taken as the protocol takes the report they stand for |
| `Connections.Connection.Expire` | udt4/src/core.cpp:2479-2489 | The protocol takes its timeout step |
| `Connections.Connection.TakeData` | udt4/src/core.cpp:2251-2326 | A data packet in flight is taken as the protocol takes it; the report that leaves stands for its report |
| `Connections.Connection.EmitLite` | udt4/src/core.cpp:1614-1626 | A lite ACK leaves exactly when the protocol sends one |
| `Connections.Connection.EmitFull` | udt4/src/core.cpp:1603-1698 | A full ACK leaves exactly when the protocol sends one |
| `Connections.Connection.EmitReport` | udt4/src/core.cpp:1728-1748 | A periodic report leaves if and only if something is lost, the interval since the last one or the last late packet has passed and the packet has room; it stands for one the protocol may send |
| `Connections.Connection.TakeAck2` | udt4/src/core.cpp:1948-1977 | An ACK2 in flight is taken as the protocol takes it |
| `Connections.Connection.Recv` | udt4/src/buffer.cpp:392-427 | Returns the next bytes; all that was ever returned is the start of all that was ever given to send |
| `SenderHalves.DecodeHead` | udt4/src/core.cpp:1990-2027 | The first word, or first two words, of a report are its first range |
| `ReceiverHalves.ReceiverHalf.constructor` | udt4/src/core.cpp:696-698 | The receiving half starts at the protocol's initial receiver |
| `ReceiverHalves.ReceiverHalf.FirstMissing` | udt4/src/core.cpp:1607-1612 | The number for an ACK is the wrapped least missing number |
| `ReceiverHalves.ReceiverHalf.SendLite` | udt4/src/core.cpp:1614-1626 | Sends a lite ACK exactly when the protocol does, with its number |
| `ReceiverHalves.ReceiverHalf.SendFullAck` | udt4/src/core.cpp:1603-1698 | Takes exactly the protocol's step for a full ACK; one leaves if and only if it is due, as FullAckLeaves says, with the next ACK number, the wrapped least missing number and the free room, at least 2, and is recorded |
| `ReceiverHalves.ReceiverHalf.MoveUp` | udt4/src/core.cpp:1631-1638 | Moves the acknowledgement point and the buffer's ack position by the same distance |
| `ReceiverHalves.ReceiverHalf.EmitAck` | udt4/src/core.cpp:1662-1696 | Sends and remembers an ACK exactly when seqcmp takes its number for later than m_iRcvLastAckAck |
| `ReceiverHalves.ReceiverHalf.ProcessData` | udt4/src/core.cpp:2287-2323 | Takes exactly the protocol's step for a data packet; the immediate loss report stands for exactly the new gap |
| `ReceiverHalves.ReceiverHalf.DetectLoss` | udt4/src/core.cpp:2294-2323 | Enters exactly the skipped numbers, or removes exactly the late one |
| `ReceiverHalves.ReceiverHalf.ProcessAck2` | udt4/src/core.cpp:1948-1977 | Takes exactly the protocol's step for an ACK2 |
| `ReceiverHalves.ReceiverHalf.Read` | udt4/src/buffer.cpp:392-427 | Takes exactly the protocol's reading step |
| `ReceiverHalves.ReceiverHalf.SendNak` | udt4/src/core.cpp:1728-1748 | A periodic report is made if and only if something is lost, the threshold has passed and the limit admits a word; it stays within the limit and names lost numbers only, the lowest of them, and all of them when there was room |
| `ReceiverHalves.MoveOver` | udt4/src/buffer.cpp:468-476 | Moving the ack position over filled slots makes exactly their payloads readable |
| `ReceiverHalves.StoreOne` | udt4/src/buffer.cpp:375-390 | Filling one empty slot adds exactly one payload past the acknowledgement point |
| `ReceiverHalves.GapReport` | udt4/src/core.cpp:2300-2306 | The one or two words of an immediate report stand for the gap |
| `ReceiverHalves.ReportIsHonest` | udt4/src/list.cpp:689-716 | What getLossArray writes names the lowest intervals of the list, all of them when the limit is not reached |
| `SeqNo.CmpRefines` | udt4/src/common.h:222-223 | For numbers less than 2^30 - 1 apart seqcmp of the wrapped ones has the sign of their difference |
| `SeqNo.CmpExact` | udt4/src/common.h:222-223 | seqcmp orders numbers a distance apart correctly at every place of the circle if and only if the distance is below the threshold |
| `SeqNo.CmpAhead` | udt4/src/common.h:222-223 | seqcmp of a number with one d before it is positive for 0 < d < 2^30 - 1 everywhere, for d up to 2^30 + 1 only where the circle closes in between, and for no other d up to a full circle |
| `SeqNo.CmpRange` | udt4/src/common.h:222-223 | So it is positive at every place exactly for 0 < d < 2^30 - 1, and at some place exactly for 0 < d <= 2^30 + 1 |
| `SeqNo.CmpTotalOrder` | udt4/src/common.h:222-223 | On a window of pairwise near numbers seqcmp is a strict total order |
| `SeqNo.LenRefines` | udt4/src/common.h:225-226 | seqlen is the number of numbers from the first to the second |
| `SeqNo.OffRefines` | udt4/src/common.h:228-237 | seqoff is the true difference |
| `SeqNo.IncRefines` | udt4/src/common.h:239-243 | incseq and decseq add and subtract one modulo 2^31 |
| `SeqNo.IncByRefines` | udt4/src/common.h:245-246 | incseq with an offset adds it modulo 2^31 |
| `SeqNo.NoOverflow` | udt4/src/common.h:222-246 | No intermediate result leaves a signed 32-bit word, except the length of a full circle in seqlen |
| `SndLossLists.SndLossList.constructor` | udt4/src/list.cpp:43-70 | An empty list: every slot free, no cached position |
| `SndLossLists.SndLossList.Insert` | udt4/src/list.cpp:85-255 | Adds exactly the numbers from a to b to the set and returns how many were new, coalescing intervals; arrays, links, length and cached position stay exact |
| `SndLossLists.SndLossList.Coalesce` | udt4/src/list.cpp:218-252 | The loop that takes in following intervals leaves the set unchanged and restores order |
| `SndLossLists.SndLossList.SearchPrior` | udt4/src/list.cpp:153-161 | The search from the cached position or the head ends at the last interval that starts before the number |
| `SndLossLists.SndLossList.Remove` | udt4/src/list.cpp:257-367 | Removes exactly the numbers not after the given one |
| `SndLossLists.SndLossList.GetLostSeq` | udt4/src/list.cpp:376-418 | Removes and returns the least number, or -1 when the list is empty |
| `LossArrays.AbsorbRep` | udt4/src/list.cpp:218-252 | Merging two neighbouring intervals keeps the whole representation |
| `LossArrays.LinkAt` | udt4/src/list.cpp:163-176 | Linking an interval in at the slot of its first number finds that slot free and keeps the representation |
| `Intervals.Cardinality` | udt4/src/list.cpp:369-374 | The length kept by hand is the number of elements |
| `Intervals.SlotInjective` | udt4/src/list.cpp:106-109 | Within a window narrower than the array different numbers have different slots |
| `RcvLossLists.RcvLossList.constructor` | udt4/src/list.cpp:422-446 | An empty list |
| `RcvLossLists.RcvLossList.Insert` | udt4/src/list.cpp:456-504 | Appends the numbers from a to b above the present ones, growing the last interval when they touch |
| `RcvLossLists.RcvLossList.Remove` | udt4/src/list.cpp:506-636 | Removes exactly one number, from the start, the end or the middle of an interval, and tells whether it was there |
| `RcvLossLists.RcvLossList.Unlink` | udt4/src/list.cpp:524-543 | A single number at the start of its slot is unlinked |
| `RcvLossLists.RcvLossList.Shift` | udt4/src/list.cpp:544-576 | The first of several numbers: the interval moves to the next slot |
| `RcvLossLists.RcvLossList.Trim` | udt4/src/list.cpp:595-603 | The last number of an interval is cut off |
| `RcvLossLists.RcvLossList.Split` | udt4/src/list.cpp:604-631 | A number from the middle splits its interval in two |
| `RcvLossLists.RcvLossList.SearchBack` | udt4/src/list.cpp:583-589 | The backward search over slots ends, at the last interval that starts before the number |
| `RcvLossLists.RcvLossList.Find` | udt4/src/list.cpp:656-674 | Tells exactly whether some number from a to b is in the list |
| `RcvLossLists.RcvLossList.GetLossLength` | udt4/src/list.cpp:676-679 | The length kept by hand is the number of elements |
| `RcvLossLists.RcvLossList.GetFirstLostSeq` | udt4/src/list.cpp:681-687 | The wrapped least number, or -1 |
| `RcvLossLists.RcvLossList.GetLossArray` | udt4/src/list.cpp:689-716 | Writes the report of the lowest intervals within the limit and touches nothing beyond it; nothing before the threshold |
| `RcvLossArrays.LinksInverse` | udt4/src/list.cpp:456-636 | next and prior are mutually inverse on the slots in use |
| `LossReport.RoundTrip` | udt4/src/list.cpp:698-713 | Decoding the array written by getLossArray yields exactly the intervals reported, in order |
| `LossReport.ReportFits` | udt4/src/list.cpp:698-713 | All writes are inside the limit, the report stops early only within one word of it, and it is empty only when nothing is lost or there is no room |
| `LossReport.FlagIsTopBit` | udt4/src/list.cpp:704 | A flagged word has the top bit of 32 set and the number in the bits below; an unflagged one has it clear |
| `LossReport.LowestPart` | udt4/src/list.cpp:698-713 | What is reported is below everything that is not |
| `SndBuffers.SndBuffer.constructor` | udt4/src/buffer.cpp:47-92 | A closed ring of free blocks |
| `SndBuffers.SndBuffer.AddBuffer` | udt4/src/buffer.cpp:120-164 | Appends the chunks of the data, stamped with boundaries, order and message number, after growing the ring as needed; what was there and what was sent stay as they are |
| `SndBuffers.SndBuffer.Increase` | udt4/src/buffer.cpp:274-331 | New blocks spliced in behind the cursor of the last block change neither contents nor cursors |
| `SndBuffers.SndBuffer.ReadNew` | udt4/src/buffer.cpp:206-219 | Returns the first block never sent and moves past it, or nothing |
| `SndBuffers.SndBuffer.ReadAt` | udt4/src/buffer.cpp:221-255 | Returns the block at a distance from the first |
| `SndBuffers.SndBuffer.AckData` | udt4/src/buffer.cpp:257-267 | Frees exactly the first blocks; the ring is seen from a later block on |
| `SndBuffers.ChunkAt` | udt4/src/buffer.cpp:139-145 | The i-th slice addBuffer copies is the i-th chunk |
| `Bytes.ChunksFlatten` | udt4/src/buffer.cpp:120-164 | The chunks together are the data, each between 1 and MSS bytes long |
| `Bytes.ChunkCount` | udt4/src/buffer.cpp:122-124 | The count computed by division is the number of chunks |
| `MsgStamps.AddBufferStamps` | udt4/src/buffer.cpp:136-157 | Each user buffer becomes exactly one stamped message, and the log stays a log of whole messages |
| `MsgStamps.StreamIsStamped` | udt4/src/buffer.cpp:146-151 | So the packets sent form a stream in which a message starts exactly where another one ended |
| `MsgStamps.NumbersGoRound` | udt4/src/buffer.cpp:161-163 | Message numbers are between 1 and 2^29 - 2, and two messages share one if and only if their distance is a multiple of 2^29 - 2 |
| `RcvBuffers.RcvBuffer.constructor` | udt4/src/buffer.cpp:347-359 | An empty circular buffer |
| `RcvBuffers.RcvBuffer.AddData` | udt4/src/buffer.cpp:375-390 | Stores a unit in an empty slot, never over another one, and counts it |
| `RcvBuffers.RcvBuffer.AckData` | udt4/src/buffer.cpp:468-476 | Moves the ack position and the furthest offset with it |
| `RcvBuffers.RcvBuffer.GetRcvDataSize` | udt4/src/buffer.cpp:484-490 | The number of acknowledged, unread slots, wrapped or not |
| `RcvBuffers.RcvBuffer.GetAvailBufSize` | udt4/src/buffer.cpp:478-482 | The free slots, one always kept empty |
| `RcvBuffers.RcvBuffer.ReadBuffer` | udt4/src/buffer.cpp:392-427 | Returns the bytes and leaves the units and notch of the reading specification; every unit read to its end is freed and uncounted, and a unit is free exactly when no slot holds it |
| `RcvBuffers.RcvBuffer.ScanMsg` | udt4/src/buffer.cpp:547-653 | Skips, frees and finds as the scanning specification says; its exit for a message too long for the buffer is taken exactly when an open message fills all but one slot |
| `RcvBuffers.RcvBuffer.ReadMsg` | udt4/src/buffer.cpp:499-538 | Delivers the bytes and leaves the buffer of the message specification: an acknowledged message is freed, another one marked as read; the exit for a message too long for the buffer delivers and changes nothing |
| `RcvBuffers.RcvBuffer.GetRcvMsgNum` | udt4/src/buffer.cpp:540-545 | Says 1 when there is a message to deliver and something is acknowledged or m_iMaxPos is positive, or when an open message is too long for the buffer, and never else |
| `RcvBuffers.RcvBuffer.LookAhead` | udt4/src/buffer.cpp:567-581 | The look-ahead sees unread units up to a message end or the ack position |
| `MsgModel.ScanMsgExact` | udt4/src/buffer.cpp:547-653 | scanMsg finds a message if and only if there is one to deliver and something is acknowledged or m_iMaxPos is positive; it finds the first, whole and unread, holds back in-order messages past the ack point, and frees no part of any message |
| `MsgModel.FoundExactly` | udt4/src/buffer.cpp:550-551 | In the terms of the slots: a message to deliver is found if and only if something is acknowledged or some slot besides the first holds a unit |
| `MsgModel.ScanExact` | udt4/src/buffer.cpp:601-642 | The main loop finds the first whole message that may be delivered and fails only if there is none |
| `MsgModel.SkipPassesNone` | udt4/src/buffer.cpp:553-594 | The first loop passes over no whole message |
| `MsgModel.FrontFirst` | udt4/src/buffer.cpp:553-642 | After it an acknowledged message that is found starts at the first slot, so readMsg leaves no unit behind |
| `MsgRun.RunInv` | udt4/src/buffer.cpp:499-652 | The mailbox invariant holds over every run of arrivals, acknowledgements and reads |
| `MsgRun.MessagesAreWholeAndOnce` | udt4/src/buffer.cpp:499-652 | In every run each delivery is the first min(len, size) bytes of exactly one message of the sender, no packet is delivered twice, and messages that want order come in order |
| `MsgRun.NothingIsLost` | udt4/src/buffer.cpp:499-652 | In every run that acknowledges filled slots only, each message below the acknowledgement point is delivered, or whole and unread in the buffer |
| `MsgRun.AskingServes` | udt4/src/buffer.cpp:499-538 | So long as such a message is not delivered, a read delivers some message |
| `MsgRun.ReceiveDelivers` | udt4/src/buffer.cpp:499-538 | In every run a read delivers a message if and only if there is one to deliver and something is acknowledged or some slot besides the first holds a unit; it never moves the ack point, and frees an acknowledged message |
| `MsgRun.OutOfOrderServed` | udt4/src/buffer.cpp:499-538 | In every run a read delivers some message while a whole one past the ack point wants no order, unless that one is the only unit in the buffer |
| `MsgRun.MissedMessage` | udt4/src/buffer.cpp:550-551 | The run of two steps in which a message that may be delivered is not found |
| `AckWindows.AckWindow.Store` | udt4/src/window.cpp:83-94 | Afterwards there are min(old + 1, size - 1) records: the new one last, and before it the latest of the old ones in their order, all of them while there is room |
| `AckWindows.AckWindow.Acknowledge` | udt4/src/window.cpp:96-150 | The first match gives its data number and age and is discarded with all before it; without one the answer is -1 and nothing changes; in both layouts |
| `AckWindows.AckWindow.SearchUnwrapped` | udt4/src/window.cpp:98-122 | The case of a head not behind the tail |
| `AckWindows.AckWindow.SearchWrapped` | udt4/src/window.cpp:125-149 | The case of a head behind the tail |
| `AckHistory.StoreKeepsLatest` | udt4/src/window.cpp:83-94 | The same of the first-in first-out list the window stands for |
| `PktTimeWindows.GetPktRcvSpeed` | udt4/src/window.cpp:215-264 | The window is permuted with its lower half in order; the result is what 32-bit arithmetic makes of it; whenever no intermediate value leaves its word it is the least r with r times mean at least 1000000, for the mean of the samples within a factor of eight of the true median, or 0 when those are not more than half of all |
| `PktTimeWindows.FitsExactly` | udt4/src/window.cpp:235-261 | The 32-bit median, bounds and sum are the true ones if and only if two samples added, the median times 8 and the sum of the kept samples fit a 32-bit word |
| `PktTimeWindows.FitsIsRight` | udt4/src/window.cpp:235-261 | Then the result is that rate, and nothing is divided by zero |
| `PktTimeWindows.RateIsRight` | udt4/src/window.cpp:235-263 | That law of the result, for every sorted window |
| `PktTimeWindows.RoundsUp` | udt4/src/window.cpp:261 | The quotient rounded up is the least integer not below the true one, for divisors of either sign |
| `PktTimeWindows.RoundsToZero` | udt4/src/window.cpp:261 | Division of the wrapped sum rounds toward zero |
| `PktTimeWindows.SpeedInWords` | udt4/src/window.cpp:235-263 | The result for every window, also when values wrap: nothing when the wrapped sum is smaller in size than the count, and else the quotient by the truncated mean, rounded up |
| `PktTimeWindows.ZeroDivisor` | udt4/src/window.cpp:257-261 | The code divides by zero if and only if it keeps more than half of the samples and their wrapped sum is smaller in size than their number |
| `PktTimeWindows.DividesByZero` | udt4/src/window.cpp:257-261 | Sixteen samples on which it does |
| `PktTimeWindows.NegativeSum` | udt4/src/window.cpp:257-263 | Sixteen gaps of 140 seconds for which the code returns 0 and the true result is 1 |
| `PktTimeWindows.SortHalf` | udt4/src/window.cpp:217-233 | The half-length sort permutes the window and makes its first n/2 + 1 entries the smallest, in order |
| `PktTimeWindows.MedianUnique` | udt4/src/window.cpp:235-236 | That entry is the true median: any such arrangement has the same one |
| `PktTimeWindows.MeanBounds` | udt4/src/window.cpp:244-263 | The mean of the kept samples lies strictly between the bounds |
| `PktTimeWindows.CountBetween` | udt4/src/window.cpp:244-255 | The pointer loop counts the samples between the bounds and sums them in a 32-bit word |
| `SndULists.SndUList.Insert_` | udt4/src/queue.cpp:350-392 | Puts a socket on the heap as the heap specification says, once; places and back-pointers stay inverse |
| `SndULists.SndUList.Remove_` | udt4/src/queue.cpp:394-424 | Takes a socket off from any place as the specification says; places and back-pointers stay inverse, -1 off the heap |
| `SndULists.SndUList.Update` | udt4/src/queue.cpp:282-304 | Asks for service as soon as possible: inserts, retimes the root, or moves |
| `SndULists.SndUList.Pop` | udt4/src/queue.cpp:306-331 | Takes the root, and puts it back with its next time exactly when it sent a packet and has one |
| `SndULists.SndUList.NextProcTime` | udt4/src/queue.cpp:340-348 | 0 for an empty heap, otherwise the root's time, the least one in an ordered heap |
| `HeapModel.InsertedOrder` | udt4/src/queue.cpp:350-380 | Insertion keeps heap order |
| `HeapModel.RemovedOrder` | udt4/src/queue.cpp:394-420 | Removal keeps heap order if and only if the entry removed was the root or the last, or the last is not earlier than the vacated place's parent; otherwise exactly that edge is wrong |
| `HeapModel.Conserved` | udt4/src/queue.cpp:350-424 | Insertion adds exactly the entry, removal takes out exactly the one named |
| `HeapModel.RootLeast` | udt4/src/queue.cpp:306-331 | In an ordered heap the root is the earliest |
| `HeapModel.RootLeastAfterRemoval` | udt4/src/queue.cpp:394-424 | The removal that breaks order still leaves the earliest entry at the root |
| `HeapModel.BrokenOrderShows` | udt4/src/queue.cpp:394-424 | A heap of seven from which one removal in the middle and two of the root leave a later entry at the root: order is not an invariant |
| `HeapRun.OrderedRuns` | udt4/src/queue.cpp:282-424 | Heap order holds all through a run of insertions, removals and retimed roots if and only if every removal meets the condition of RemovedOrder |
| `HeapRun.PopServesEarliest` | udt4/src/queue.cpp:306-331 | So long as all removals before it did, pop serves an entry no later than any other, and the next pop no earlier one |
| `RcvULists.RcvUList.Insert` | udt4/src/queue.cpp:571-590 | Appends a socket heard from now |
| `RcvULists.RcvUList.Remove` | udt4/src/queue.cpp:592-621 | Unlinks exactly that socket, from any place |
| `RcvULists.RcvUList.Update` | udt4/src/queue.cpp:623-657 | Moves the socket to the end with the present time |
| `RcvULists.RcvUList.Sweep` | udt4/src/queue.cpp:1002-1025 | The sweep ends; it looks at exactly the stale sockets, keeps the usable ones as just heard from and in their order, drops the others, and leaves no socket older than the deadline |
| `Md5.Md5State.constructor` | udt4/src/md5.cpp:312-320 | The state of the empty message |
| `Md5.Md5State.Append` | udt4/src/md5.cpp:322-358 | The state after the data: whole blocks folded, bit count with carry, unfinished block buffered |
| `Md5.Md5State.AddLength` | udt4/src/md5.cpp:333-337 | The bit count over two words is the length modulo 2^64 |
| `Md5.Md5State.Finish` | udt4/src/md5.cpp:360-381 | The sixteen bytes returned are the words a, b, c and d of the final state, low byte first; for the state of any message that is the fold of the whole padded message, and the bytes are the digest RFC 1321 defines |
| `Md5.Compute` | udt4/src/common.cpp:740-747 | The digest of a whole message |
| `Md5Model.AbsorbIs` | udt4/src/md5.cpp:322-358 | Absorbing data into the state of a message gives the state of the longer message |
| `Md5Model.AnyCut` | udt4/src/md5.cpp:322-358 | However a message is cut into calls, the final state is that of the whole message |
| `Md5Model.FinishIs` | udt4/src/md5.cpp:360-381 | Padding as md5_finish does, with the bit count modulo 2^64, gives the digest of the message for every length |
| `Md5Model.PaddingFits` | udt4/src/md5.cpp:375-376 | The padding fills whole blocks with the fewest zeros possible |
| `Md5Model.PaddingBytes` | udt4/src/md5.cpp:363-376 | The padding is the byte 0x80, then zeros, then the bit count modulo 2^64 as two words, low one first |
| `Md5Model.LittleEndianValue` | udt4/src/md5.cpp:373-380 | n bytes of a number, low one first, stand for its remainder modulo 256^n |
| `Md5Model.DigestWords` | udt4/src/md5.cpp:379-380 | The words read back from a digest are a, b, c and d of its state |
| `Md5Model.FoldBlock` | udt4/src/md5.cpp:351-353 | One more block applies the compression function once, to the state before it |
| `Md5Model.StartBytes` | udt4/src/md5.cpp:312-320 | The initial state, byte by byte as section 3.3 of RFC 1321 lists it |
| `Md5Model.TwoWords` | udt4/src/md5.cpp:333-337 | Count in two words with carry equals the 64-bit count |
| `AckHistory.Find` | udt4/src/window.cpp:96-150 | The index of the first record with the number |

## Left out

- Sockets, threads, locks, condition variables, clocks, files, the API layer and epoll: plumbing around the steps modelled.
- Congestion control: its window is an arbitrary input of `PackNew`; its arithmetic is floating point.
- Handshake, SYN cookie, rendezvous, socket removal and option setting: data transfer needs an agreed initial number and sizes only.
- Keep-alive, congestion warning, shutdown and message-drop control packets, RTT and bandwidth estimates, and the give-up after 16 expirations.
- `dropMsg` and message time-to-live: every block has time-to-live -1, so the expiry branches of `readData` and `packData` are not modelled; cells with flag 3 are.
- `CRcvLossList::remove` of a range, `addBufferFromFile`, `readBufferToFile`, `getBandwidth`, `CCache`, `getNextAvailUnit`, holepoke, the sample programs.
- Heap array growth: `SndUList` requires a free slot, as `update` and `pop` do by calling `insert_` directly.
- ACK sub-sequence numbers are unbounded; their own wrap at 2^31 - 1 is not modelled.
- The bits of `m_iMsgNo` are the fields of `Header` and `UnitData`; packing them into one word is not modelled. Block payloads are sequences, not slices of an arena.
- The compression function of MD5 is an arbitrary function, so nothing is said about its rounds; `strlen` of `CMD5::compute` is the length of the input.
- A flagged last word of a loss report makes the original read past the packet; `ProcessNak` requires well-formed words.
- SndLossLists.SndLossList.Insert: requires all numbers in the list and the argument to lie in a window narrower than the array and than 2^30 - 1; `SenderListFits` says exactly when every run has it.
- SndLossLists.SndLossList.Remove: requires the numbers in the list to be near the argument, for the same reason.
- RcvLossLists.RcvLossList.Insert: requires the new numbers to be above the present ones, as its caller ensures.
- RcvBuffers.RcvBuffer.ReadBuffer: requires the acknowledged slots to be filled, which holds in stream mode; the original would follow a null pointer.
- RcvBuffers.RcvBuffer.ReadMsg: requires boundary bits stamped as by `addBuffer`; with others the original can leave units behind.
- PktTimeWindows.GetPktRcvSpeed: signed overflow, undefined in C++, is taken to wrap; a division by zero is the result None.
- RcvULists.RcvUList.Sweep: whether a socket is usable is a function fixed for one sweep; each socket is looked at once, so its answer at that moment is what counts.
- ProtocolTheorems.NoDeadlock: says when delivery stays possible, not that a fair scheduler and network must bring it about; a number taken from the loss list is read before 2^30 - 1 more are freed.
- Connections.Connection.TakeNak: requires the words to be well formed, as every report sent is.
- MsgRun.NothingIsLost: for runs in which only filled slots are acknowledged, as `LossListIsExact` proves of a connection.
