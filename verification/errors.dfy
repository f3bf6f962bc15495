/** Errors that carry a code: the closed set of error values the package works
    with, the generic wrappers and their code-selection rules, operation
    labels, client-data extraction and the JSON record sent to clients. */
module ErrorCodes {
  import opened Wrappers
  import opened DotPath
  import opened Codes
  import opened Registry

  /** EmbedOp: a fragment a domain struct embeds to carry an operation label. */
  datatype EmbedOp = EmbedOp(op: string)

  /** A value a domain error hands to clients through GetClientData. Its
      contents are opaque here except for an embedded operation label. */
  datatype Payload = Payload(fields: string, embed: Option<EmbedOp>)

  /** Which generic wrapper a coded error is: CodedError itself, or one of the
      three kinds that embed it. */
  datatype Kind = Generic | InvalidInput | Internal | NotFound

  /** An error value.
      - Plain: an error that has a message and nothing else.
      - Domain: an application error type; `code` is Some when it implements
        Code() (it is then an ErrorCode), `data` is Some when it implements
        GetClientData, `embed` is Some when it embeds EmbedOp.
      - Coded: a CodedError (or a kind embedding one) wrapping `err`.
      - OpErr: an OpErrCode, an ErrorCode `inner` labelled with an operation. */
  datatype Err =
    | Plain(msg: string)
    | Domain(msg: string, code: Option<Code>, data: Option<Payload>, embed: Option<EmbedOp>)
    | Coded(kind: Kind, getCode: Code, err: Err)
    | OpErr(operation: string, inner: Err)

  /** A value handed to a client as data: an error value or a domain payload. */
  datatype Value = OfErr(e: Err) | OfPayload(payload: Payload)

  /** The JSON record of an error. `operation` is None when the operation is
      empty, which the wire form omits. */
  datatype JSONFormat = JSONFormat(data: Value, msg: string, code: string, operation: Option<string>)

  /** The value implements the ErrorCode interface: it has a Code(). */
  predicate IsErrorCode(e: Err)
  {
    match e
    case Plain(_) => false
    case Domain(_, code, _, _) => code.Some?
    case Coded(_, _, _) => true
    case OpErr(_, _) => true
  }

  /** The static typing of the source: an OpErrCode only ever wraps an ErrorCode. */
  predicate WellFormed(e: Err)
  {
    match e
    case Coded(_, _, inner) => WellFormed(inner)
    case OpErr(_, inner) => IsErrorCode(inner) && WellFormed(inner)
    case _ => true
  }

  /** A well-formed value of the ErrorCode interface. */
  predicate ErrorCode(e: Err)
  {
    WellFormed(e) && IsErrorCode(e)
  }

  /** Error(): the message. Wrappers delegate; OpErrCode prefixes its operation. */
  function Error(e: Err): string
  {
    match e
    case Plain(msg) => msg
    case Domain(msg, _, _, _) => msg
    case Coded(_, _, inner) => Error(inner)
    case OpErr(operation, inner) => operation + ": " + Error(inner)
  }

  /** Code(): a domain error's own code, a coded error's chosen code, and for
      an OpErrCode the code of the error it labels. */
  function CodeOf(e: Err): Code
    requires ErrorCode(e)
  {
    match e
    case Domain(_, code, _, _) => code.value
    case Coded(_, getCode, _) => getCode
    case OpErr(_, inner) => CodeOf(inner)
  }

  /** The value implements HasClientData. */
  predicate HasClientData(e: Err)
  {
    match e
    case Plain(_) => false
    case Domain(_, _, data, _) => data.Some?
    case Coded(_, _, _) => true
    case OpErr(_, _) => true
  }

  /** The error under every CodedError and OpErrCode layer. */
  function Innermost(e: Err): (r: Err)
    ensures !r.Coded? && !r.OpErr?
  {
    match e
    case Coded(_, _, inner) => Innermost(inner)
    case OpErr(_, inner) => Innermost(inner)
    case _ => e
  }

  /** The client data of an unwrapped error: its payload when it is an
      ErrorCode implementing GetClientData, otherwise the error itself. */
  function OwnData(e: Err): Value
  {
    if e.Domain? && e.code.Some? && e.data.Some? then OfPayload(e.data.value) else OfErr(e)
  }

  /** GetClientData of the types that implement it. A coded error hands on the
      client data of the error it wraps, or that error itself when it is not an
      ErrorCode; an OpErrCode hands on the client data of the error it labels. */
  function GetClientData(e: Err): (r: Value)
    requires ErrorCode(e) && HasClientData(e)
    ensures r == OwnData(Innermost(e))
    decreases e, 0
  {
    match e
    case Domain(_, _, data, _) => OfPayload(data.value)
    case Coded(_, _, inner) => if IsErrorCode(inner) then ClientData(inner) else OfErr(inner)
    case OpErr(_, inner) => ClientData(inner)
  }

  /** ClientData: the data for the client is GetClientData when the error
      implements it, and the error itself otherwise. Whatever the wrapping, the
      client sees the innermost error or its payload, never a wrapper. */
  function ClientData(e: Err): (r: Value)
    requires ErrorCode(e)
    ensures r == OwnData(Innermost(e))
    ensures r.OfErr? ==> !r.e.Coded? && !r.e.OpErr?
    decreases e, 1
  {
    if HasClientData(e) then GetClientData(e) else OfErr(e)
  }

  /** Operation: the label of a value implementing HasOperation (an OpErrCode,
      or a struct embedding EmbedOp), and the empty string for anything else. */
  function Operation(v: Value): string
  {
    match v
    case OfErr(Domain(_, _, _, Some(embed))) => embed.op
    case OfErr(OpErr(operation, _)) => operation
    case OfPayload(Payload(_, Some(embed))) => embed.op
    case _ => ""
  }

  /** OperationClientData: the error's own operation, or when that is empty the
      operation of its client data; and the client data. */
  function OperationClientData(e: Err): (r: (string, Value))
    requires ErrorCode(e)
    ensures r.1 == ClientData(e)
    ensures Operation(OfErr(e)) != "" ==> r.0 == Operation(OfErr(e))
    ensures Operation(OfErr(e)) == "" ==> r.0 == Operation(OwnData(Innermost(e)))
  {
    var op := Operation(OfErr(e));
    var data := ClientData(e);
    if op == "" then (Operation(data), data) else (op, data)
  }

  /** NewJSONFormat: the message, the full path of the code, the client data
      and the operation, omitted when empty. */
  function NewJSONFormat(e: Err): (j: JSONFormat)
    requires ErrorCode(e)
    ensures j.msg == Error(e)
    ensures j.code == CodeStr(CodeOf(e))
    ensures j.data == OwnData(Innermost(e))
    ensures j.operation.Some? ==> j.operation.value != ""
    ensures Operation(OfErr(e)) != "" ==> j.operation == Some(Operation(OfErr(e)))
    ensures Operation(OfErr(e)) == "" && Operation(OwnData(Innermost(e))) == "" ==> j.operation == None
    ensures Operation(OfErr(e)) == "" && Operation(OwnData(Innermost(e))) != "" ==>
      j.operation == Some(Operation(OwnData(Innermost(e))))
  {
    var (op, data) := OperationClientData(e);
    JSONFormat(data, Error(e), CodeStr(CodeOf(e)), if op == "" then None else Some(op))
  }

  /** NewCodedError: wraps `err`, keeping its own code when it is an ErrorCode
      and taking `code` otherwise. */
  function NewCodedError(err: Err, code: Code): (r: Err)
    requires WellFormed(err)
    ensures ErrorCode(r) && r.Coded? && r.kind == Generic && r.err == err
    ensures IsErrorCode(err) ==> CodeOf(r) == CodeOf(err)
    ensures !IsErrorCode(err) ==> CodeOf(r) == code
    ensures Error(r) == Error(err)
    ensures ClientData(r) == (if IsErrorCode(err) then ClientData(err) else OfErr(err))
  {
    Coded(Generic, if IsErrorCode(err) then CodeOf(err) else code, err)
  }

  /** The embedding wrapper of the given kind around a CodedError. */
  function OfKind(kind: Kind, coded: Err): (r: Err)
    requires coded.Coded?
  {
    Coded(kind, coded.getCode, coded.err)
  }

  /** NewInvalidInputErr: the error's own code, or the invalid-input code. */
  function NewInvalidInputErr(err: Err): (r: Err)
    requires WellFormed(err)
    ensures ErrorCode(r) && r.Coded? && r.kind == InvalidInput && Error(r) == Error(err)
    ensures ClientData(r) == (if IsErrorCode(err) then ClientData(err) else OfErr(err))
    ensures CodeOf(r) == (if IsErrorCode(err) then CodeOf(err) else InvalidInputCode)
  {
    OfKind(InvalidInput, NewCodedError(err, InvalidInputCode))
  }

  /** NewInternalErr: keeps the error's own code only when the internal code is
      on that code's chain; every other error gets the internal code itself.
      Either way the result's code descends from the internal code. */
  function NewInternalErr(err: Err): (r: Err)
    requires WellFormed(err)
    ensures ErrorCode(r) && r.Coded? && r.kind == Internal && r.err == err && Error(r) == Error(err)
    ensures InternalCode in Chain(CodeOf(r))
    ensures IsErrorCode(err) && InternalCode in Chain(CodeOf(err)) ==> CodeOf(r) == CodeOf(err)
    ensures !(IsErrorCode(err) && InternalCode in Chain(CodeOf(err))) ==> CodeOf(r) == InternalCode
  {
    var code :=
      if IsErrorCode(err) && IsAncestor(CodeOf(err), InternalCode) then CodeOf(err) else InternalCode;
    Coded(Internal, code, err)
  }

  /** NewNotFoundErr: the error's own code, or the not-found code. */
  function NewNotFoundErr(err: Err): (r: Err)
    requires WellFormed(err)
    ensures ErrorCode(r) && r.Coded? && r.kind == NotFound && Error(r) == Error(err)
    ensures ClientData(r) == (if IsErrorCode(err) then ClientData(err) else OfErr(err))
    ensures CodeOf(r) == (if IsErrorCode(err) then CodeOf(err) else NotFoundCode)
  {
    OfKind(NotFound, NewCodedError(err, NotFoundCode))
  }

  /** AddOp, the function Op returns: it carries the operation it adds. */
  datatype AddOp = AddOp(operation: string)

  /** Op: the adder of one operation label, reusable for many errors. */
  function Op(operation: string): AddOp
  {
    AddOp(operation)
  }

  /** AddTo: labels an ErrorCode with the operation. The message gains the
      operation as a prefix; the code and the client data are those of `err`. */
  function AddTo(addOp: AddOp, err: Err): (r: Err)
    requires ErrorCode(err)
    ensures ErrorCode(r)
    ensures Error(r) == addOp.operation + ": " + Error(err)
    ensures CodeOf(r) == CodeOf(err)
    ensures ClientData(r) == ClientData(err)
    ensures Operation(OfErr(r)) == addOp.operation
  {
    OpErr(addOp.operation, err)
  }

  // ---------------------------------------------------------------------------
  // Properties of wrapping and reporting

  /** The operation labels of the OpErrCode layers of `e`, outermost first,
      each followed by ": ". */
  function OpPrefix(e: Err): string
  {
    match e
    case Coded(_, _, inner) => OpPrefix(inner)
    case OpErr(operation, inner) => operation + ": " + OpPrefix(inner)
    case _ => ""
  }

  /** Every message is the innermost error's message behind the operation
      labels of the layers above it. */
  lemma {:induction false} ErrorIsLabelledInnermost(e: Err)
    ensures Error(e) == OpPrefix(e) + Error(Innermost(e))
  {
    match e
    case Plain(_) =>
    case Domain(_, _, _, _) =>
    case Coded(_, _, inner) =>
      ErrorIsLabelledInnermost(inner);
    case OpErr(operation, inner) =>
      ErrorIsLabelledInnermost(inner);
      assert operation + ": " + (OpPrefix(inner) + Error(Innermost(inner)))
          == (operation + ": " + OpPrefix(inner)) + Error(Innermost(inner));
  }

  /** Wrapping a labelled error in a CodedError keeps the message, code and
      client data of its JSON record, but drops the label: the record's
      operation falls back to the innermost error's or its payload's. */
  lemma JSONCodedHidesLabel(operation: string, err: Err, code: Code)
    requires ErrorCode(err) && operation != ""
    ensures var labelled := AddTo(Op(operation), err);
      var outer := NewJSONFormat(NewCodedError(labelled, code));
      var inner := NewJSONFormat(labelled);
      && outer.msg == inner.msg && outer.code == inner.code && outer.data == inner.data
      && inner.operation == Some(operation)
      && outer.operation == (if Operation(OwnData(Innermost(err))) == "" then None
                             else Some(Operation(OwnData(Innermost(err)))))
  {
  }

  /** The operation of an OpErrCode takes precedence in its JSON record; its
      code, message and data come from the error it labels. */
  lemma JSONOfLabelled(operation: string, err: Err)
    requires ErrorCode(err) && operation != ""
    ensures NewJSONFormat(AddTo(Op(operation), err)) ==
      JSONFormat(ClientData(err), operation + ": " + Error(err), CodeStr(CodeOf(err)), Some(operation))
  {
  }

  /** A coded wrapper has no operation of its own, so its JSON record takes
      the operation of the innermost error or of that error's payload. An
      operation label beneath the wrapper does not reach the record. */
  lemma JSONOperationOfCoded(e: Err)
    requires ErrorCode(e) && e.Coded?
    ensures Operation(OwnData(Innermost(e))) == "" ==> NewJSONFormat(e).operation == None
    ensures Operation(OwnData(Innermost(e))) != "" ==>
      NewJSONFormat(e).operation == Some(Operation(OwnData(Innermost(e))))
  {
  }

  /** A domain error that embeds an operation but implements no Code() keeps
      that operation in the JSON record of any wrapper around it. */
  lemma JSONOperationFromDomain(msg: string, data: Option<Payload>, op: string)
    requires op != ""
    ensures var d := Domain(msg, None, data, Some(EmbedOp(op)));
      && NewJSONFormat(NewInternalErr(d)).operation == Some(op)
      && NewJSONFormat(NewInvalidInputErr(d)).operation == Some(op)
      && NewJSONFormat(NewNotFoundErr(d)).operation == Some(op)
  {
    var d := Domain(msg, None, data, Some(EmbedOp(op)));
    JSONOperationOfCoded(NewInternalErr(d));
    JSONOperationOfCoded(NewInvalidInputErr(d));
    JSONOperationOfCoded(NewNotFoundErr(d));
  }

  /** The internal code is on the chain of a valid code exactly when its full
      path is "internal" or starts with "internal.". */
  lemma InternalByPath(c: Code)
    requires Valid(c)
    ensures InternalCode in Chain(c) <==> CodeStr(c) == "internal" || "internal." <= CodeStr(c)
  {
    IsAncestorByPath(c, InternalCode);
    assert CodeStr(InternalCode) + [Sep] == "internal.";
  }

  /** With the predefined registry, an internal error always reports 500:
      whatever error it wraps, its code lives under the internal root. */
  lemma InternalErrStatus(err: Err)
    requires WellFormed(err)
    ensures HTTPCode(PredefinedHTTP, CodeOf(NewInternalErr(err))) == StatusInternalServerError
  {
    var code := CodeOf(NewInternalErr(err));
    RootOnChainIsTop(code, InternalCode);
    PredefinedStatusByRoot(code);
  }

  /** With the predefined registry, wrapping an error that has no code of its
      own reports 400 for invalid input and 404 for not found. */
  lemma DefaultKindStatus(err: Err)
    requires WellFormed(err) && !IsErrorCode(err)
    ensures HTTPCode(PredefinedHTTP, CodeOf(NewInvalidInputErr(err))) == StatusBadRequest
    ensures HTTPCode(PredefinedHTTP, CodeOf(NewNotFoundErr(err))) == StatusNotFound
    ensures HTTPCode(PredefinedHTTP, CodeOf(NewCodedError(err, StateCode))) == StatusBadRequest
  {
  }

  /** The documented scenario: a not-found error labelled with an operation. */
  lemma LabelledNotFound(raw: string)
    ensures var wrapped := AddTo(Op("user.create"), NewNotFoundErr(Plain(raw)));
      && Error(wrapped) == "user.create: " + raw
      && CodeStr(CodeOf(wrapped)) == "missing"
      && HTTPCode(PredefinedHTTP, CodeOf(wrapped)) == StatusNotFound
      && NewJSONFormat(wrapped) == JSONFormat(OfErr(Plain(raw)), "user.create: " + raw, "missing", Some("user.create"))
  {
  }
}
