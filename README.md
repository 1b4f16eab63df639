# TCP calculator, modelled in Dafny

The system is a pair of C++ programs. `tcp_server.cpp` is an epoll-driven TCP
server. It reads integer expressions such as `2+3*4` from each client, each one
terminated by a single space. For every complete expression it queues the
decimal value followed by a space, or `ERR ` when the evaluation throws. It
writes the queued bytes back whenever the socket accepts them.

`tcp_client.cpp` is a load generator and validator. It opens several
non-blocking sessions at once. For each session it:
- builds a random expression of `n` numbers from 1 to 10;
- evaluates the expression itself;
- sends `expr + ' '` cut into random non-empty fragments;
- reads the reply up to its first space with `std::stol` and reports whether
  it matches.

Both programs carry the same two-stack (shunting-yard) evaluator. They differ
only in division by zero: the server throws, the client yields 0.

The project models the two programs' logic, leaving out the sockets:

| file | module | what it models |
|---|---|---|
| `text.dfy` | `Text` | `isspace`, `isdigit`, decimal digit accumulation, `std::to_string(long)` and `std::stol` |
| `evaluator.dfy` | `Evaluator` | `precedence`, `apply_op` and `evaluate`. The specification is a token-level stack machine (`Tokenize`, `Step`, `Run`, `Finish`, `Eval`). The method `Evaluate` is the scanning loop, proved equal to `Eval`. |
| `reference.dfy` | `Reference` | what `evaluate` computes on a well-formed expression: the value by the grammar "sum of left-grouped products", and exactly when the server throws |
| `evaluator_lemmas.dfy` | `EvaluatorLemmas` | the client's copy agrees with the server's; the operator-stack invariant; failures on malformed input |
| `framing.dfy` | `Framing` | cutting `' '`-terminated frames off the front of a buffer |
| `transport.dfy` | `Transport` | what `read`/`recv`, `write`/`send` and `accept` can return. A socket is a script of call results; a script that runs out means EAGAIN. |
| `server.dfy` | `TcpServer` | the server's per-connection record and its read, frame-and-answer and write loops, the descriptor table, and the class `EventLoop` |
| `generator.dfy` | `Generator` | `build_expression` and the fragmentation loop; the random draws are parameters |
| `client.dfy` | `TcpClient` | the client's send cursor (`frag_idx`, `frag_offset`), receive loop, response check, session table, the `active` count and the class `EventLoop` |
| `exchange.dfy` | `Exchange` | a client session against the server: the server answers the expected value, and the client never reports a mismatch |
| `worked_examples.dfy` | `Examples` | worked instances: `"2+3*4"`, `"8-3-2"`, `"5/0 3+4 "`, and `"12*3 "` read one byte at a time |

Each loop of the source is a Dafny `method` with a `while` loop. Its `ensures`
ties it to a function that states what the loop computes, and the properties
are lemmas about those functions. These loops are:
- the evaluator's scan, digit, reduce and drain loops;
- `build_expression`;
- the fragmentation loop;
- the server's read, frame and write loops;
- the client's send and receive loops;
- the client's set-up loop and main loop, and the server's batch loop and outer loop, as methods of the two `EventLoop` classes.

The two event loops are classes. Their table of connections is a field that
the methods update, and the methods are proved to follow the table-level
functions (`TcpServer.Serve`/`ServeAll`/`ServeBatches` and
`TcpClient.OpenSessions`/`Serve`/`ServeAll`/`RunAll`).

Stack underflow needs a note. On input such as `"+1"` or `"1+"`, the C++ code
calls `values.top()` on an empty stack (tcp_server.cpp:71-72 and 82-83), which
is undefined behaviour. The model makes this an explicit outcome,
`StackUnderflow`, and does not guess what the C++ code would do. On the server
every failed evaluation, underflow included, is answered with `ERR`.

## Model

| member | source | states |
|---|---|---|
| Text.DigitRunLength | tcp_server.cpp:61-63 | the digit loop stops at the first non-digit: the run it takes is all digits, and the next character is not a digit |
| Text.DecimalString | tcp_server.cpp:197 | the decimal text of a natural number is non-empty and all digits |
| Text.DecimalRoundTrip | tcp_server.cpp:60-63 | accumulating `val * 10 + (c - '0')` over the digits `std::to_string` prints gives back the number |
| Text.DigitRunConcat | tcp_server.cpp:61-63 | a digit run followed by a non-digit is read exactly up to that non-digit |
| Text.DigitRunOfDigits | tcp_server.cpp:61-63 | a string of digits is read whole |
| Text.IntToStringNoSpace | tcp_server.cpp:197 | `std::to_string` never produces an empty text or a space, so a reply cannot be cut in two |
| Text.SkipSpaces | tcp_client.cpp:241 | `std::stol` skips leading white space: what is left is a suffix that starts with a non-space |
| Text.LeadingNumberOfDigits | tcp_client.cpp:241 | a string of digits reads as its decimal value |
| Text.StolUnsigned | tcp_client.cpp:241 | text without white space or sign in front is read from its first character |
| Text.StolNegative | tcp_client.cpp:241 | a leading minus negates the number after it; with no digit after it, `std::stol` throws |
| Text.StolOfIntToString | tcp_server.cpp:197 | what the server prints with `std::to_string`, the client reads back with `std::stol` as the same value, negative values included |
| Text.StolRejectsErr | tcp_client.cpp:241 | `std::stol("ERR")` throws `std::invalid_argument` |
| Text.IntToString | tcp_server.cpp:197 | definition of `std::to_string(long)`: a minus sign for a negative value, then the decimal digits; `IntToStringNoSpace` and `StolOfIntToString` state its properties |
| Text.Stol | tcp_client.cpp:241 | definition of `std::stol` in base 10: skip leading white space, read one optional sign and the longest digit run, ignore the rest; `None` (std::invalid_argument) when no digit follows; `StolOfIntToString` is its round trip with `IntToString` |
| Evaluator.Precedence | tcp_server.cpp:30-34 | 2 exactly for `*` and `/`, 1 exactly for `+` and `-`, 0 for any other character |
| Evaluator.TruncDiv | tcp_server.cpp:44 | C++ `/` truncates toward zero: the remainder is smaller than the divisor in magnitude and is zero or has the dividend's sign; the product never exceeds the dividend in magnitude |
| Evaluator.TruncDivRemainder | tcp_server.cpp:44 | the truncated quotient, built from the Euclidean quotient of the magnitudes, has the properties of C++ `/` |
| Evaluator.ApplyOp | tcp_server.cpp:37-47 | fails exactly for an unknown operator (`Unknown operator`) or, on the server, for `/` by zero (`Division by zero`); otherwise returns the sum, difference, product or truncated quotient; the client's copy (tcp_client.cpp:45) gives 0 for `/` by zero |
| Evaluator.Tokenize | tcp_server.cpp:54-68 | definition of the tokens the scan meets: white space is skipped, a digit run is one operand, any other character is one operator; `TokenizeSpace`, `TokenizeDigits` and `TokenizeOperator` state each case |
| Evaluator.Step | tcp_server.cpp:58-76 | definition of what one token does to the stacks: an operand is pushed; an operator first reduces while the top binds at least as tightly, then is pushed |
| Evaluator.Run | tcp_server.cpp:54-78 | definition of the scan as `Step` folded over the tokens, stopping at the first exception |
| Evaluator.Finish | tcp_server.cpp:81-89 | definition of the final drain and the empty check; `Answer` is the loop that computes it |
| Evaluator.Eval | tcp_server.cpp:50-90 | definition of what `evaluate` returns or throws; `Evaluate` is the loop proved equal to it, and `Reference.EvalWellFormed` gives its value by the grammar |
| Evaluator.ReduceTop | tcp_server.cpp:71-74 | one reduction pops two operands and one operator and pushes one value: underflow with fewer than two operands; otherwise the stacks below are unchanged |
| Evaluator.ReduceLoop | tcp_server.cpp:70-75 | the reduce loop computes `ReduceWhile`; it only pops operators, and it stops with an empty operator stack or one whose top binds less tightly than the incoming operator |
| Evaluator.PushOperator | tcp_server.cpp:68-76 | reducing then pushing an operator is one `Step` of the specification, and it keeps the operator stack strictly increasing in precedence |
| Evaluator.ReadNumber | tcp_server.cpp:60-64 | the digit loop ends after the digit run at `i` and yields its decimal value |
| Evaluator.AccumulateDigit | tcp_server.cpp:61-63 | one more digit multiplies the value read so far by 10 and adds the digit, and lengthens the run by one |
| Evaluator.Answer | tcp_server.cpp:81-89 | the drain loop and the empty check compute `Finish`: drain every operator, then throw `Empty expression` or return the top operand |
| Evaluator.Evaluate | tcp_server.cpp:50-90 | the scanning loop returns exactly `Eval(s, policy)`, the tokens of `s` run through the stack machine and then drained, for every input, malformed ones included |
| Evaluator.TokenizeSpace | tcp_server.cpp:55-56 | white space is skipped without producing a token |
| Evaluator.TokenizeOperator | tcp_server.cpp:66-68 | any character that is neither white space nor a digit is taken as an operator |
| Evaluator.TokenizeDigits | tcp_server.cpp:58-64 | a digit run becomes one operand token with its decimal value |
| Evaluator.ScanSpace | tcp_server.cpp:55-56 | skipping a white-space character leaves the stacks and what remains to compute unchanged |
| Evaluator.ScanNumber | tcp_server.cpp:58-64 | pushing a digit run's value and moving past the run leaves what remains to compute unchanged |
| Evaluator.ScanOperator | tcp_server.cpp:66-76 | handling an operator is one `Step`; if the step fails, the whole evaluation fails with that error |
| Evaluator.EvalStops | tcp_server.cpp:74 | an exception during the scan ends the evaluation with that error |
| Evaluator.EvalAfterScan | tcp_server.cpp:80-89 | after the scan, the result is the drain of the stacks the scan left |
| Evaluator.RunNum | tcp_server.cpp:64 | an operand token pushes its value |
| Evaluator.RunOp | tcp_server.cpp:70-76 | an operator token reduces while the top binds at least as tightly, then pushes the operator |
| Evaluator.PushKeepsIncreasing | tcp_server.cpp:76 | pushing onto a stack whose top binds less tightly keeps the precedences strictly increasing |
| EvaluatorLemmas.ClientApplyOp | tcp_client.cpp:39-48 | the client's `apply_op` equals the server's except for `/` by zero, where it returns 0 |
| EvaluatorLemmas.ReduceWhileAgrees | tcp_client.cpp:70-75 | where the server's reduce loop does not divide by zero, the client's reduce loop gives the same stacks or error |
| EvaluatorLemmas.RunAgrees | tcp_client.cpp:53-77 | where the server's scan does not divide by zero, the client's scan gives the same stacks or error |
| EvaluatorLemmas.ClientAgreesWithServer | tcp_client.cpp:51-91 | on every input on which the server's `evaluate` does not throw `Division by zero`, the client's returns the same value or fails the same way |
| EvaluatorLemmas.ReduceWhileLowersTop | tcp_server.cpp:70-75 | the reduce loop only pops operators, and it leaves a top that binds less tightly than the incoming operator |
| EvaluatorLemmas.OperatorStackIncreasing | tcp_server.cpp:70-77 | after every push, the precedences on the operator stack strictly increase from bottom to top |
| EvaluatorLemmas.LevelAtLeastDepth | tcp_server.cpp:70-77 | on an increasing stack, the operator at depth `i` has precedence at least `i` |
| EvaluatorLemmas.AtMostOnePerLevel | tcp_server.cpp:70-77 | an increasing operator stack holds at most one operator per precedence level, so at most three |
| EvaluatorLemmas.TokenizeBlank | tcp_server.cpp:55-56 | all-white-space input yields no tokens |
| EvaluatorLemmas.BlankIsEmptyExpression | tcp_server.cpp:88 | on empty or all-white-space input, `evaluate` throws `Empty expression` |
| EvaluatorLemmas.OperatorsOnlyRun | tcp_server.cpp:70-76 | operators without operands either underflow or leave only operators on the stack |
| EvaluatorLemmas.OperatorsOnlyUnderflow | tcp_server.cpp:81-83 | input made only of operators pops an empty operand stack: `StackUnderflow` |
| EvaluatorLemmas.ReduceWhileKeepsUnknown | tcp_server.cpp:70-75 | a reduction that succeeds never pops an operator other than `+ - * /`, because `apply_op` throws on it |
| EvaluatorLemmas.RunKeepsUnknown | tcp_server.cpp:54-78 | once such an operator is on the stack, a scan that goes on succeeding keeps one there |
| EvaluatorLemmas.RunMeetsUnknown | tcp_server.cpp:66-76 | a scan whose tokens hold such an operator either throws or leaves one on the stack |
| EvaluatorLemmas.FinishUnknown | tcp_server.cpp:81-86 | the final drain pops every operator, so it throws when such an operator is left |
| EvaluatorLemmas.SkipDigitRun | tcp_server.cpp:58-64 | the digit run at the front ends before the first non-digit, and the tokens after it are tokens of the whole text |
| EvaluatorLemmas.SkipOne | tcp_server.cpp:55-56 | past one white-space or operator character, the tokens after it are tokens of the whole text |
| EvaluatorLemmas.TokenizeUnknown | tcp_server.cpp:66-68 | every character that is neither white space nor a digit becomes an operator token |
| EvaluatorLemmas.UnknownCharacterFails | tcp_server.cpp:46 | `evaluate` throws on every text holding a character that is not white space, not a digit and not one of `+ - * /`, whatever surrounds it |
| Reference.LastAdditive | tcp_server.cpp:30-34 | the last `+` or `-` before position `k`: every operator after it is multiplicative |
| Reference.RunAppend | tcp_server.cpp:54-78 | scanning two token sequences is scanning the first, then the second from where the first left the stacks, unless the first failed |
| Reference.CloseTerm | tcp_server.cpp:70-75 | reducing the pending product either throws on a zero divisor or leaves the closed term |
| Reference.ReduceProduct | tcp_server.cpp:71-74 | with a pending `*` or `/` on top, one reduction applies it to the product so far and the latest operand, or throws on `/` by zero |
| Reference.ClosedBeforeProduct | tcp_server.cpp:70 | an incoming `*` or `/` reduces nothing once the term is closed |
| Reference.ClosedBeforeSum | tcp_server.cpp:70-75 | an incoming `+` or `-`, or the final drain, reduces a closed term to the single value of the expression so far |
| Reference.StepPending | tcp_server.cpp:66-76 | an operator and the next operand take the stacks of `n0 op0 ... nm` to those of `n0 ... n(m+1)`, or throw exactly when the pending `/` divides by a literal 0 |
| Reference.ReduceBeforeOp | tcp_server.cpp:70-76 | the reduction before pushing `ops[m]` succeeds, and pushing it and the next operand gives the next pending stacks |
| Reference.ZeroDivisorStep | tcp_server.cpp:43 | a zero divisor occurs up to `m` exactly when it occurs before `m` or `m` is one |
| Reference.RunTokens | tcp_server.cpp:54-78 | scanning `n0 op0 ... nk` leaves the pending stacks, or, on the server, throws `Division by zero` exactly when some `/` is followed by a literal 0 |
| Reference.EvalWellFormed | tcp_server.cpp:50-90 | on a well-formed expression, `evaluate` returns the precedence-respecting, left-grouped value (x / 0 = 0 for the client); the server throws exactly when some `/` is followed by a literal 0 |
| Framing.FindSpace | tcp_server.cpp:190 | `in_buf.find(' ')`: none exactly when the buffer has no space; otherwise the first space |
| Framing.FindSpaceAfter | tcp_server.cpp:190 | a frame without a space followed by `' '` is cut at its own length |
| Framing.FramesCut | tcp_server.cpp:190-192 | one iteration cuts the text before the first space off the buffer and drops the space |
| Framing.SplitFrames | tcp_server.cpp:189-192 | the old buffer is the extracted frames, each followed by `' '`, in order, then the new buffer; neither a frame nor the new buffer contains a space |
| Framing.FramesOfJoin | tcp_server.cpp:189-192 | frames without spaces, each terminated by `' '`, followed by a space-free tail, are extracted exactly as sent, and the tail stays buffered |
| Framing.JoinAppend | tcp_server.cpp:201-202 | the terminated tokens of two sequences, concatenated, are the terminated tokens of both |
| Framing.FramesAppend | tcp_server.cpp:176 | framing a buffer extended by new data is framing the old buffer, then its leftover followed by the data |
| Framing.AllNoSpaceAppend | tcp_server.cpp:189-192 | two sequences of space-free frames join into one |
| Framing.JoinFirst | tcp_server.cpp:190-192 | the first terminated frame sits in front of the rest |
| TcpServer.ReplyToken | tcp_server.cpp:194-200 | the reply to one expression is non-empty and has no space |
| TcpServer.ReplyTokenReadsBack | tcp_server.cpp:194-200 | a reply reads back through `std::stol` as the value `evaluate` returned; `ERR`, sent when it threw, reads as nothing |
| TcpServer.ReplyTokens | tcp_server.cpp:194-202 | one reply per expression, none with a space |
| TcpServer.ReplyTokensAppend | tcp_server.cpp:190-202 | replies to two batches of expressions are the replies to each, in order |
| TcpServer.ResponsesAppend | tcp_server.cpp:201-202 | the bytes queued for two batches are the bytes for each, in order |
| TcpServer.ResponsesSingle | tcp_server.cpp:201-202 | one expression queues its reply and one `' '` |
| TcpServer.RepliesFrameBack | tcp_server.cpp:194-202 | the queued replies frame back into exactly one reply per expression, in request order, and nothing is left; nothing is queued exactly when there was no expression |
| TcpServer.AbsorbSplit | tcp_server.cpp:173-210 | reading `x` and then `y` leaves the same record as reading `x + y` at once: the output depends only on the concatenation of the chunks |
| TcpServer.AnswerOne | tcp_server.cpp:190-209 | one iteration of the framing loop queues the reply to the first frame with its `' '` and registers write interest |
| TcpServer.AnswerNone | tcp_server.cpp:190 | with no space in the buffer the framing loop changes nothing |
| TcpServer.AnswerFrames | tcp_server.cpp:189-210 | the framing loop leaves `AnswerAll`: the unterminated tail, the replies appended in order, and write interest set when a reply was queued |
| TcpServer.ReadAll | tcp_server.cpp:171-187 | the read loop appends every chunk until EAGAIN; it closes exactly when a read returns 0 or fails |
| TcpServer.Receive | tcp_server.cpp:171-210 | the EPOLLIN part computes `OnReadable`: read, then answer every complete expression, or close |
| TcpServer.FlushTail | tcp_server.cpp:214-228 | the write loop only removes a prefix of the output: what remains is its tail |
| TcpServer.FlushEmpties | tcp_server.cpp:214-219 | when every write accepts at least one byte, enough writes empty the output buffer |
| TcpServer.WriteAll | tcp_server.cpp:214-228 | the write loop computes `Flush`: it removes what each write accepted, stops on EAGAIN or an empty buffer, and closes on 0 or an error |
| TcpServer.Send | tcp_server.cpp:214-235 | the EPOLLOUT part computes `OnWritable`: write, and drop write interest exactly when the buffer ends empty |
| TcpServer.ServeRecord | tcp_server.cpp:168-236 | one event on a client computes `ServeConnection` and keeps write interest registered exactly while output is queued |
| TcpServer.ServeConnectionCoherent | tcp_server.cpp:201-235 | every event keeps write interest registered exactly while output is queued |
| TcpServer.AccountsMeaning | tcp_server.cpp:93-96 | the bookkeeping invariant, buffer by buffer: `in_buf` holds the unterminated tail of what was received, what was sent followed by `out_buf` is every reply owed, and write interest is set exactly while output is queued |
| TcpServer.FreshAccounts | tcp_server.cpp:163 | a freshly accepted connection has received nothing and owes nothing |
| TcpServer.AbsorbAccounts | tcp_server.cpp:173-210 | appending a chunk and answering what is complete keeps the bookkeeping, with the chunk added to what was received |
| TcpServer.FlushAccounts | tcp_server.cpp:214-235 | writing keeps the bookkeeping: the bytes the socket accepted move from `out_buf` to what was sent |
| TcpServer.SentGrows | tcp_server.cpp:218 | erasing the accepted prefix of the output and appending it to what was sent keeps their concatenation |
| TcpServer.AbsorbNothing | tcp_server.cpp:189-190 | with a settled record, the framing loop finds nothing to do |
| TcpServer.ReadAccounts | tcp_server.cpp:171-210 | the EPOLLIN part keeps the bookkeeping; without EPOLLIN the record is unchanged |
| TcpServer.WriteStepAccounts | tcp_server.cpp:214-235 | the EPOLLOUT part keeps the bookkeeping |
| TcpServer.ServeConnectionAccounts | tcp_server.cpp:168-236 | one event keeps the bookkeeping: what was read joins what was received, and what was written joins what was sent |
| TcpServer.AcceptedFds | tcp_server.cpp:149-157 | the accept loop takes the new descriptors in order until the first EAGAIN or error |
| TcpServer.AddFreshEffect | tcp_server.cpp:163 | every accepted descriptor gets a fresh empty record, replacing any old one; other entries are unchanged |
| TcpServer.ServeListen | tcp_server.cpp:147-166 | an event on the listening socket only inserts fresh records for the accepted descriptors |
| TcpServer.ServeClient | tcp_server.cpp:167-236 | an event on a client touches only that descriptor's entry: an unknown descriptor starts from an empty record (`operator[]`); the entry is erased exactly when the connection closed |
| TcpServer.ServeAllCoherent | tcp_server.cpp:143-240 | a batch of events keeps every record's write interest registered exactly while output is queued |
| TcpServer.ServeBatchesCoherent | tcp_server.cpp:139-241 | however many batches the server handles, every record keeps write interest registered exactly while output is queued |
| TcpServer.Drain | tcp_server.cpp:171-187 | definition of the read loop: append every chunk until EAGAIN; close when a read returns 0 or fails; `ReadAll` is the loop that computes it |
| TcpServer.AnswerAll | tcp_server.cpp:189-210 | definition of the framing loop: the unterminated tail stays, each complete expression queues its reply and `' '`, and write interest is set if anything was queued; `AnswerFrames` computes it and `SplitFrames` fixes what the tail and the frames are |
| TcpServer.Absorb | tcp_server.cpp:176-210 | definition of a read of some bytes: append them, then answer what is complete; `AbsorbSplit` and `AbsorbAccounts` state its properties |
| TcpServer.OnReadable | tcp_server.cpp:171-210 | definition of the EPOLLIN part: the read loop, then the framing loop, or close; `Receive` computes it |
| TcpServer.Flush | tcp_server.cpp:214-228 | definition of the write loop: drop what each write accepted, stop on EAGAIN or an empty buffer, close on 0 or an error; `WriteAll` computes it and `FlushTail` bounds it |
| TcpServer.OnWritable | tcp_server.cpp:214-235 | definition of the EPOLLOUT part: write, then drop write interest once the buffer is empty; `Send` computes it |
| TcpServer.ServeConnection | tcp_server.cpp:168-236 | definition of one event on a client socket: the EPOLLIN part, then the EPOLLOUT part; `ServeRecord` computes it |
| TcpServer.AddFresh | tcp_server.cpp:163 | definition of `conns[conn_fd] = Connection{}` for each accepted descriptor in turn; `AddFreshEffect` states its effect |
| TcpServer.Serve | tcp_server.cpp:143-239 | definition of one event on the table; `ServeListen` and `ServeClient` state its effect |
| TcpServer.ServeAll | tcp_server.cpp:143-240 | definition of one `epoll_wait` batch, event by event; `ServeAllCoherent` states what it keeps |
| TcpServer.ServeBatches | tcp_server.cpp:139-241 | definition of the outer `while (true)` loop over the batches handled so far; `ServeBatchesCoherent` states what it keeps |
| TcpServer.EventLoop.constructor | tcp_server.cpp:134 | the table starts empty |
| TcpServer.EventLoop.AcceptAll | tcp_server.cpp:149-165 | the accept loop inserts a fresh record for every accepted descriptor |
| TcpServer.EventLoop.HandleEvent | tcp_server.cpp:143-239 | one event updates the table as `Serve` says |
| TcpServer.EventLoop.Dispatch | tcp_server.cpp:143-240 | a batch of events updates the table as `ServeAll` says, and every record stays coherent |
| TcpServer.EventLoop.Run | tcp_server.cpp:139-241 | the outer loop updates the table as `ServeBatches` says, batch after batch, and every record stays coherent |
| Generator.OpsOf | tcp_client.cpp:96-97 | each operator draw from 0 to 3 selects one of `+ - * /` |
| Generator.Render | tcp_client.cpp:98-103 | definition of the text `build_expression` writes: each number in decimal, followed by an operator except after the last; `RenderTokens` states how it scans |
| Generator.BuildExpression | tcp_client.cpp:94-104 | for n >= 1, the text is n numbers alternating with n - 1 operators with no spaces (`Render`); for n <= 0 it is empty |
| Generator.SumPrefixBound | tcp_client.cpp:152-156 | with every length at least 1, each remaining fragment still takes at least one byte |
| Generator.CutsPrefix | tcp_client.cpp:152-156 | the lengths drawn so far cover a prefix of the message |
| Generator.Fragment | tcp_client.cpp:151-157 | the fragmentation loop cuts the message into consecutive pieces of the drawn lengths |
| Generator.FragmentsOf | tcp_client.cpp:151-157 | definition of the fragments: consecutive pieces of the message of the drawn lengths; `FragmentsCover` states that they cover the message |
| Generator.FragmentsCover | tcp_client.cpp:151-157 | the fragments are non-empty, have the drawn lengths, and concatenate to exactly the message |
| Generator.TokenizeAppend | tcp_server.cpp:54-78 | two texts that do not glue two digit runs together scan as the tokens of one, then the tokens of the other |
| Generator.DecimalTokens | tcp_client.cpp:100 | a printed number scans as one operand with its value |
| Generator.ScanOperatorNumber | tcp_client.cpp:100-101 | an operator and a printed number after a digit scan as one operator token and one operand |
| Generator.RenderTokens | tcp_client.cpp:94-104 | a built expression scans as its numbers and operators, alternating, ends with a digit and has no space |
| Generator.GeneratedValue | tcp_client.cpp:45 | with every number from 1 to 10 no divisor is 0, so both copies of `evaluate` return the grammar's value of a built expression |
| Generator.EmptyExpressionThrows | tcp_client.cpp:143 | the empty expression built for n <= 0 makes `evaluate` throw |
| TcpClient.Judge | tcp_client.cpp:238-253 | no verdict exactly while no `' '` has arrived; otherwise the token before the first space is read with `std::stol` and compared |
| TcpClient.Collect | tcp_client.cpp:224-236 | definition of the receive loop: the chunks up to the first `recv` that returns 0, EAGAIN or an error; `ReceiveAll` computes it |
| TcpClient.SendLoop | tcp_client.cpp:193-220 | definition of the send loop: each send advances `frag_offset`, rolling over to the next fragment at a fragment's end; stop on EAGAIN or after the last fragment; close on 0 or an error; `SendFragments` computes it |
| TcpClient.OnWritable | tcp_client.cpp:193-220 | definition of the EPOLLOUT part: the send loop when fragments remain, then EPOLLOUT dropped once every fragment is sent |
| TcpClient.OnReadable | tcp_client.cpp:224-253 | definition of the EPOLLIN part: the receive loop, then the response check; the session closes with its verdict once a `' '` has arrived |
| TcpClient.OnEvent | tcp_client.cpp:190-254 | definition of one event on a session: the EPOLLOUT part, then the EPOLLIN part; `ServeSession` computes it and `StepHealthy` states what it keeps |
| TcpClient.JudgeStable | tcp_client.cpp:239 | once a verdict is reached, more input does not change it |
| TcpClient.JudgeToken | tcp_client.cpp:239-249 | the verdict on a space-free token followed by `' '` is the comparison of its `std::stol` value, or termination when `std::stol` throws |
| TcpClient.ErrReplyAborts | tcp_client.cpp:241 | an `ERR` reply makes `std::stol` throw, which terminates the client |
| TcpClient.FindSpaceKept | tcp_client.cpp:239 | the first space stays the first space as more input arrives |
| TcpClient.SentPrefix | tcp_client.cpp:193-204 | the bytes sent so far are the fragments before `frag_idx`, then the first `frag_offset` bytes of the current fragment |
| TcpClient.AdvanceCursor | tcp_client.cpp:199-204 | a partial or completing send advances the position by exactly the bytes sent |
| TcpClient.SendLoopAdvances | tcp_client.cpp:194-213 | the send loop keeps the cursor inside the fragments and never moves it back |
| TcpClient.SendLoopCompletes | tcp_client.cpp:194-204 | when every send accepts at least one byte, enough sends deliver every fragment |
| TcpClient.SendFragments | tcp_client.cpp:194-213 | the send loop computes `SendLoop`: advance `frag_idx`/`frag_offset` by what each send took, stop on EAGAIN or after the last fragment, close on 0 or an error |
| TcpClient.ReceiveAll | tcp_client.cpp:224-236 | the receive loop appends every chunk until a `recv` returns 0, EAGAIN or an error |
| TcpClient.SentStaysSent | tcp_client.cpp:193-220 | once every fragment has gone, EPOLLOUT is off, and a write event sends nothing |
| TcpClient.PeerCloseKeepsSession | tcp_client.cpp:230-232 | a `recv` that returns 0 only ends the receive loop: before any `' '` has arrived, the session stays open, unchanged |
| TcpClient.StepHealthy | tcp_client.cpp:190-254 | an event keeps a session's cursor inside its fragments and EPOLLOUT registered exactly while fragments remain |
| TcpClient.ServeSession | tcp_client.cpp:190-254 | one event on a session computes `OnEvent`: send, then receive and judge, or close |
| TcpClient.ServeHealthy | tcp_client.cpp:185-256 | every session in the table stays healthy after an event |
| TcpClient.ServeEffect | tcp_client.cpp:185-256 | an event touches only its own descriptor's session, never adds one, and reports a verdict only when it erases that session |
| TcpClient.Serve | tcp_client.cpp:186-255 | definition of one event on the table: skipped for an unknown descriptor, otherwise the session is updated or erased with its verdict |
| TcpClient.ServeAll | tcp_client.cpp:185-256 | definition of one `epoll_wait` batch, up to an `Aborted` verdict |
| TcpClient.RunAll | tcp_client.cpp:181-257 | definition of the main loop: batch after batch while sessions remain, until an `Aborted` verdict |
| TcpClient.ServeAllStep | tcp_client.cpp:185-256 | a batch is its first event and then the rest; an `Aborted` verdict ends everything |
| TcpClient.ServeAllHealthy | tcp_client.cpp:185-256 | a batch keeps every session healthy |
| TcpClient.ServeAllShrinks | tcp_client.cpp:188-189 | sessions are only erased, never added, and a batch reports no more verdicts than it erased sessions |
| TcpClient.ShrinkCount | tcp_client.cpp:250-252 | counting: the erase of this event and those of later events are disjoint |
| TcpClient.RunAllStep | tcp_client.cpp:181-257 | the main loop handles one batch of events, then the next, until an `Aborted` verdict |
| TcpClient.SessionOf | tcp_client.cpp:140-176 | the session set-up builds is healthy, its fragments concatenate to the expression and its `' '`, and it expects the grammar's value |
| TcpClient.NewSession | tcp_client.cpp:141-157 | set-up succeeds exactly when n >= 1 (otherwise `evaluate` throws on the empty expression) and then builds `SessionOf` |
| TcpClient.MakeSession | tcp_client.cpp:141-157 | set-up for n >= 1 builds exactly `SessionOf` |
| TcpClient.Expression | tcp_client.cpp:142-143 | the built expression and the value the client evaluates for it |
| TcpClient.DrawnValue | tcp_client.cpp:143 | the client's `evaluate` of a built expression is the grammar's value |
| TcpClient.OpenSessions | tcp_client.cpp:140-176 | definition of the set-up loop: one session per plan, stored under its socket's descriptor, or termination when n <= 0 |
| TcpClient.OpenSessionsEffect | tcp_client.cpp:140-176 | set-up fails exactly when there is a session to open and n <= 0; otherwise the table gains exactly the plans' descriptors |
| TcpClient.OpenSessionsLast | tcp_client.cpp:175 | the last plan's session is the one stored under its descriptor |
| TcpClient.OpenSessionsHealthy | tcp_client.cpp:140-176 | every session set-up opens starts healthy: nothing sent, nothing received, EPOLLOUT registered |
| TcpClient.EventLoop.constructor | tcp_client.cpp:136 | the table starts empty |
| TcpClient.EventLoop.AddSession | tcp_client.cpp:140-176 | one set-up iteration stores `SessionOf` under the socket's descriptor, or fails when n <= 0 |
| TcpClient.EventLoop.SetUp | tcp_client.cpp:140-178 | the set-up loop updates the table as `OpenSessions` says, then sets `active` to the number of sessions |
| TcpClient.EventLoop.CountActive | tcp_client.cpp:178 | `active` is set to the number of sessions |
| TcpClient.EventLoop.HandleEvent | tcp_client.cpp:185-255 | one event updates the table as `Serve` says and keeps `active` equal to the number of open sessions |
| TcpClient.EventLoop.Dispatch | tcp_client.cpp:185-256 | a batch updates the table as `ServeAll` says and reports its verdicts |
| TcpClient.EventLoop.Run | tcp_client.cpp:181-257 | the main loop runs batches while sessions remain, as `RunAll` says |
| Exchange.Message | tcp_client.cpp:148 | the bytes a session sends are its expression and one `' '` |
| Exchange.MessageShape | tcp_client.cpp:148 | the message is a space-free expression followed by the terminator |
| Exchange.ServerAnswers | tcp_server.cpp:189-202 | once the server has received a session's whole message, it owes exactly the expected value and one `' '`, and keeps nothing buffered |
| Exchange.DrawnServerValue | tcp_server.cpp:196 | the server's `evaluate` of a built expression does not throw and gives the client's expected value |
| Exchange.ServerWaits | tcp_server.cpp:190 | before the terminator has arrived the server owes nothing, however the bytes were split |
| Exchange.ClientNeverMismatches | tcp_client.cpp:239-249 | whatever prefix of the reply the client has received, it has no verdict yet or a match: never a mismatch, never termination |
| Exchange.ExchangeAccounts | tcp_server.cpp:168-236 | under the server's bookkeeping, what was sent and what is queued together are the expected value and its `' '`, and the client's verdict on what was sent is none yet or a match |
| Examples.ProductFirst | tcp_server.cpp:70-76 | `"2+3*4"` evaluates to 14 |
| Examples.LeftToRight | tcp_server.cpp:70-76 | `"8-3-2"` evaluates to 3 |
| Examples.ZeroDivisor | tcp_server.cpp:43 | `"5/0"` throws on the server and gives 0 on the client |
| Examples.TwoRequests | tcp_server.cpp:189-202 | two complete expressions in the buffer are answered in order, with nothing left over |
| Examples.OneRequest | tcp_server.cpp:163-202 | a fresh record that reads one complete expression queues its reply and registers write interest |
| Examples.ReplyOf | tcp_server.cpp:196-197 | an expression that evaluates is answered with the decimal text of its value |
| Examples.ErrThenValue | tcp_server.cpp:194-202 | `"5/0 3+4 "` is answered `"ERR 7 "`: a failing expression does not stop later ones |
| Examples.RepliesInOrder | tcp_server.cpp:194-202 | `"2+2 9/3 "` is answered `"4 3 "` |
| Examples.AbsorbEachConcat | tcp_server.cpp:173-210 | however the bytes are spread over read events, the record is the one for all of them read at once |
| Examples.BytewiseReads | tcp_server.cpp:173-177 | `"12*3 "` read one byte per event leaves the record it leaves when read whole |
| Examples.WholeRead | tcp_server.cpp:189-209 | `"12*3 "` read whole is answered `"36 "` with nothing left buffered |

## Left out

- `long` is modelled as an unbounded integer. Overflow in digit accumulation and in `+ - *`, `LONG_MIN / -1`, and the `std::out_of_range` that `std::stol` throws on an out-of-range reply are not modelled.
- Evaluator.ReduceTop: C++ pops an empty `std::stack` (undefined behaviour) on malformed input such as `"+1"`. The model reports `StackUnderflow` instead, which the server answers with `ERR` like any other failure.
- Sockets, `fcntl`, `bind`/`listen`/`connect`, `epoll_create1`/`epoll_ctl`/`epoll_wait` and argument parsing are I/O. Every call result is a script parameter (`Transport`). The `EPOLL_CTL_MOD` calls are the `writeInterest` flag of each record. `connect` and its errors are not modelled.
- Logging with `std::cout`/`std::cerr` is not modelled; the client's `expr` field is kept only for logging and is not stored in the modelled record.
- `std::mt19937` and the distributions: their draws are parameters (`Plan`), constrained to the ranges the distributions produce.
- The 512-byte and 64-byte read buffers: a read returns any chunk, so every size is covered.
- A script that runs out stands for EAGAIN. `epoll_wait` errors and `EINTR` restarts, the `MAX_EVENTS` batch size, edge-triggered readiness and fairness across a batch are not modelled; a batch is any sequence of events.
- Records are values in the descriptor table (a `map` of datatype values), not objects referenced from it; nothing in the source aliases a record, so nothing is lost.
- The client's `recv` returning 0 or failing only ends its receive loop (tcp_client.cpp:230-235), as in the source. A session whose server closed before replying therefore stays open (`TcpClient.PeerCloseKeepsSession`); the model keeps this behaviour and does not fix it.
- The client's `std::stol` on `ERR` throws and nothing catches it, so the client terminates; the model keeps this as the verdict `Aborted`, which ends the run.
- Strings are modelled as sequences of characters, while the source works on bytes. The character classes agree on ASCII: the source passes every byte through `unsigned char` to `isspace`/`isdigit`, and in the model every character outside ASCII is likewise neither white space nor a digit. Chunk and write sizes are counted in characters, not bytes, and multi-byte encodings are not modelled.
- The server's outer `while (true)` loop never ends; the model runs it over any finite sequence of batches (`TcpServer.EventLoop.Run`).
- TcpClient.SendLoop: requires non-empty fragments and a cursor inside them. Set-up only builds such sessions (`SessionOf`), and every event keeps them so (`StepHealthy`).
