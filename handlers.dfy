/**
 * The step handlers of the ZIV driver: RequestResponse and its three
 * variants (link reset with SNRM, association with AARQ, and a COSEM
 * register read). The C++ class hierarchy is a closed set, so it is one
 * class tagged by its kind.
 */
module Handlers {
  import opened Wire

  /**
   * The handler's result. The source keeps an optional<int>: empty means the
   * step is still pending, a value is the code of the step (0 = success).
   */
  datatype Outcome = Pending | Done(code: int) {
    predicate Succeeded() { Done? && code == 0 }
    predicate Failed() { Done? && code != 0 }
  }

  /** Code that error() stores: timeouts and malformed frames. */
  const ERROR_CODE: int := -1

  datatype HandlerKind = Buffers | Aarq | Cosem

  /**
   * COSEM attribute read by the register handler (the constructor's default).
   * Only the request builder (cl_read) uses it, and its output reaches the
   * model as the `built` queue, so nothing here reads it back.
   */
  const VALUE_ATTRIBUTE: nat := 2

  /** Which of a component's three handlers its rr_ pointer designates, if any. */
  datatype Active = NoHandler | BuffersRR | AarqRR | CosemRR

  class RequestResponse {
    const kind: HandlerKind
    /** Attribute index passed to cl_read (COSEM handler only). */
    const attribute: nat
    var result: Outcome
    /** Last decoded register value (COSEM handler only). */
    var value: int
    /** OBIS logical name of the register read next (COSEM handler only). */
    var logicalName: string

    constructor (kind: HandlerKind, logicalName: string)
      ensures this.kind == kind && attribute == VALUE_ATTRIBUTE
      ensures result == Pending && value == 0 && this.logicalName == logicalName
    {
      this.kind := kind;
      attribute := VALUE_ATTRIBUTE;
      result := Pending;
      value := 0;
      this.logicalName := logicalName;
    }

    /** error(): the step fails, whatever it held before. */
    method Error()
      modifies this`result
      ensures result == Done(ERROR_CODE)
    {
      result := Done(ERROR_CODE);
    }

    /**
     * start(): the result becomes pending, then the codec's builder for this
     * kind fills the (freshly cleared) queue. `built` is what the builder
     * produced and `buildRet` its return code, which is only logged: a failing
     * builder never sets a result, the step just goes on with its queue.
     */
    method Start(built: seq<Message>, buildRet: int) returns (queue: seq<Message>)
      modifies this`result
      ensures result == Pending
      ensures queue == built
    {
      result := Pending;
      queue := built;
    }

    /**
     * parse(): the result is exactly the parser's return code; the COSEM
     * handler also keeps the decoded integer, but only on code 0.
     */
    method Parse(code: int, decoded: int)
      modifies this`result, this`value
      ensures result == Done(code)
      ensures value == if kind == Cosem && code == 0 then decoded else old(value)
    {
      result := Done(code);
      if kind == Cosem && code == 0 {
        value := decoded;
      }
    }

    /** setLogicalName(): selects the register the next read asks for. */
    method SetLogicalName(name: string)
      requires kind == Cosem
      modifies this`logicalName
      ensures logicalName == name
    {
      logicalName := name;
    }
  }
}
