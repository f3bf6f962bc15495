# Error-code taxonomy of `pkg/error_code` in Dafny

This project models the `errcode` package. The package attaches an immutable,
hierarchical code to errors, so that API clients can branch on the code rather
than on the message. The model covers three parts:

- **Codes** (`codes.dfy`, module `Codes`). A code is a local segment plus an
  optional parent. `CodeStr` rebuilds its full dot-separated path from the
  parent chain. `NewCode` and `Child` validate their input with
  `checkCodePath`. `findAncestor` and `IsAncestor` walk up the parent chain.
  Go's `strings.Split` on `"."` is modelled exactly in `dotpath.dfy` (module
  `DotPath`), including empty pieces.
- **Metadata registry** (`registry.dfy`, module `Registry`).
  `MetaDataFromAncestors` is a nearest-ancestor lookup in a map keyed by full
  path. `SetHTTP` registers an HTTP status and refuses duplicates. `HTTPCode`
  falls back to 400 when nothing is registered. The four predefined roots are
  `internal` (500), `input` (400), `missing` (404) and `state` (400). These are
  the status codes of RFC 9110: 400 is section 15.5.1, 404 is section 15.5.5
  and 500 is section 15.6.1.
- **Error values and reporting** (`errors.dfy`, module `ErrorCodes`). A closed
  datatype `Err` replaces Go's interfaces and type switches:
  - a plain error;
  - a domain error that may have a code, client data and an embedded `EmbedOp`;
  - `Coded`, which is `CodedError` and the `invalidInputErr`, `internalErr` and
    `notFoundErr` kinds that embed it;
  - `OpErr`, which is `OpErrCode`.

  The module also models `ClientData`, `Operation`, `OperationClientData`,
  `NewJSONFormat`, the constructors and `Op`/`AddTo`.

Go panics become `Failure` results: `PathError` for `checkCodePath` and
`DuplicateHTTP` for `SetHTTP`. The process-wide `httpMetaData` map becomes an
explicit `map<string, int>` parameter. `RegisterPredefined` models the
package's `var` block, and `PredefinedHTTP` is the registry that block builds.

Main results:
- For valid codes, equality of full paths is equality of codes (`CodeStrInjective`).
  Ancestry can be read off the paths (`IsAncestorByPath`).
- Client data is always the innermost error or its payload, never a wrapper
  (the contract of `ClientData`).
- With the predefined registry, an internal error always reports 500
  (`InternalErrStatus`).

## Model

| member | source | states |
|---|---|---|
| Codes.SplitCodeStr | pkg/error_code/error_code.go:64-71 | splitting a valid code's full path at the dots gives its stored segments, root first: the path holds the hierarchy |
| Codes.CodeStrInjective | pkg/error_code/error_code.go:64-71 | two valid codes have the same full path exactly when they are the same code, so comparing paths is comparing codes |
| Codes.SegmentsInjective | pkg/error_code/error_code.go:57-62 | a code is determined by its list of stored segments |
| Codes.CheckCodePath | pkg/error_code/error_code.go:440-457 | a code string is accepted exactly when it has no dot, or when it belongs to a child and its second-to-last piece is the parent's stored segment |
| Codes.NewCode | pkg/error_code/error_code.go:76-82 | fails exactly when the segment contains a dot; on success the code is a valid root whose full path is the segment |
| Codes.Child | pkg/error_code/error_code.go:87-96 | fails exactly when the string has a dot and its second-to-last piece differs from the parent's segment; on success the child stores only the last piece, its path is the parent's path, a dot and that piece, and a bare segment always succeeds; a failure is always WrongParentPath carrying the second-to-last piece, the parent's segment and the string |
| Codes.ChildQualified | pkg/error_code/error_code.go:84-96 | a child built from "parent.local" is the child built from "local", and its path is the parent's path followed by ".local" |
| Codes.ChildWrongParent | pkg/error_code/error_code.go:449-454 | a qualified string that names another parent segment is refused |
| Codes.WrongParentAnyPrefix | pkg/error_code/error_code.go:450-455 | a qualified string whose second-to-last piece is not the parent's segment is refused, whatever pieces stand further left |
| Codes.ChildIgnoresOuterPieces | pkg/error_code/error_code.go:450-455 | pieces left of the second-to-last one are not checked, so any prefix is accepted |
| Codes.FindAncestor | pkg/error_code/error_code.go:98-107 | returns the nearest code on the chain from the code up to its root that passes the test, the code itself included, and None exactly when no code on the chain passes |
| Codes.IsAncestor | pkg/error_code/error_code.go:109-112 | true exactly when the given code is on the chain from the code up to its root, the code itself included |
| Codes.IsAncestorByPath | pkg/error_code/error_code.go:109-112 | for valid codes, a is on the chain of c exactly when c's full path equals a's or extends it past a dot |
| Registry.MetaDataFromAncestors | pkg/error_code/error_code.go:119-131 | returns the value under the full path of the nearest code on the chain that has an entry, and None exactly when no code on the chain has one |
| Registry.InheritsFromAncestor | pkg/error_code/error_code.go:119-131 | a code with no entries on its chain below some ancestor has that ancestor's metadata, so an unregistered child inherits its parent's |
| Registry.SetHTTP | pkg/error_code/error_code.go:135-142 | fails exactly when the code's full path is already a key, reporting the existing status and the code; otherwise adds exactly that key with the status, keeps every other entry and returns the code unchanged |
| Registry.HTTPCode | pkg/error_code/error_code.go:144-152 | the status registered for the nearest code on the chain, or 400 when no code on the chain is registered |
| Registry.ChainPathsIsChain | pkg/error_code/error_code.go:123-130 | the full paths the lookup visits are, position by position, the full paths of the codes on the chain from the code up to its root |
| Registry.MetaDataUnaffected | pkg/error_code/error_code.go:136-141 | adding an entry under a path that is not on a code's chain does not change that code's lookup |
| Registry.SetHTTPEffect | pkg/error_code/error_code.go:135-152 | after a successful registration the code reports the registered status, and codes whose chain avoids that path keep theirs |
| Registry.PredefinedCodes | pkg/error_code/error_code.go:154-164 | building the four predefined roots cannot panic |
| Registry.PredefinedRegistration | pkg/error_code/error_code.go:154-164 | the four registrations do not collide: internal→500, input→400, missing→404, state→400 |
| Registry.PredefinedStatusByRoot | pkg/error_code/error_code.go:144-164 | with the predefined registry every code reports its root's status: 500 under internal, 404 under missing, 400 otherwise |
| ErrorCodes.GetClientData | pkg/error_code/error_code.go:293-299 | a coded error's client data is the innermost error's client data, or that error itself when it is not an ErrorCode |
| ErrorCodes.ClientData | pkg/error_code/error_code.go:211-220 | the client data is the innermost error's payload, or the innermost error itself, and never a wrapper |
| ErrorCodes.OperationClientData | pkg/error_code/error_code.go:232-243 | the operation is the error's own when it is non-empty, otherwise the operation of the extracted client data; the data is the client data |
| ErrorCodes.NewJSONFormat | pkg/error_code/error_code.go:245-254 | msg is the error message, code is the full path of the error's code, data is the client data; the operation is omitted exactly when both levels give an empty one |
| ErrorCodes.NewCodedError | pkg/error_code/error_code.go:274-291 | the code is the wrapped error's own when it is an ErrorCode and the default otherwise; the message and client data are the wrapped error's |
| ErrorCodes.NewInvalidInputErr | pkg/error_code/error_code.go:304-309 | the wrapped error's own code, or the input code for a plain error; same message and client data |
| ErrorCodes.NewInternalErr | pkg/error_code/error_code.go:317-330 | keeps the wrapped error's code exactly when the internal code is on that code's chain, else uses the internal code; the result's code always descends from internal |
| ErrorCodes.NewNotFoundErr | pkg/error_code/error_code.go:338-343 | the wrapped error's own code, or the missing code for a plain error; same message and client data |
| ErrorCodes.AddTo | pkg/error_code/error_code.go:391-436 | the labelled error's message is the operation, ": " and the inner message; its code and client data are the inner error's and its operation is the label |
| ErrorCodes.ErrorIsLabelledInnermost | pkg/error_code/error_code.go:284-286 | every message is the innermost error's message preceded by the operation labels of the layers above it |
| ErrorCodes.JSONCodedHidesLabel | pkg/error_code/error_code.go:232-299 | wrapping Op(s).AddTo(e) in a CodedError keeps the record's message, code path and client data, but the label s no longer reaches the record: its operation falls back to the innermost error's or payload's, or is omitted |
| ErrorCodes.JSONOfLabelled | pkg/error_code/error_code.go:232-254 | the JSON record of Op(s).AddTo(e) has operation s, message "s: " plus e's message, e's code path and e's client data |
| ErrorCodes.JSONOperationOfCoded | pkg/error_code/error_code.go:363-372 | a coded wrapper has no operation, so its record takes the innermost error's or its payload's operation, and none when that is empty |
| ErrorCodes.JSONOperationFromDomain | pkg/error_code/error_code.go:374-381 | an operation embedded in a domain error without a code reaches the JSON record through any of the three kinds |
| ErrorCodes.InternalByPath | pkg/error_code/error_code.go:317-327 | a valid code keeps its place under internal exactly when its path is "internal" or starts with "internal." |
| ErrorCodes.InternalErrStatus | pkg/error_code/error_code.go:317-330 | with the predefined registry an internal error always reports 500 |
| ErrorCodes.DefaultKindStatus | pkg/error_code/error_code.go:304-343 | with the predefined registry, wrapping a plain error reports 400 for invalid input and 404 for not found |
| ErrorCodes.LabelledNotFound | pkg/error_code/error_code.go:423-436 | Op("user.create").AddTo(NewNotFoundErr(e)) has message "user.create: " plus e's message, code "missing", status 404 and operation "user.create" in its record |
| DotPath.SplitPieces | pkg/error_code/error_code.go:441-443 | every piece of a split string is dot-free; there is exactly one piece when the string has no dot, and that piece is the string itself |
| DotPath.SplitConcat | pkg/error_code/error_code.go:441-441 | splitting at one dot splits the two sides independently |
| DotPath.SplitJoin | pkg/error_code/error_code.go:93-94 | splitting the dot-join of dot-free pieces gives the pieces back, so with JoinSplit the pieces are the unique dot-free decomposition of a path |
| DotPath.JoinSplit | pkg/error_code/error_code.go:93-94 | joining the pieces of a string with dots gives the string back |

## Left out

- cmd/simulator/main.go is not part of this model. It is a process entry point: flags, logging, signals, tickers and and it drives faketikv, the PD server and its API, etcd raft and logrus.
- Codes.IsAncestor: compares codes by value. The source compares `Code` structs with `==`, which compares `Parent` pointers. The two agree whenever the target is a root, which is how the source uses it (`InternalCode`). Pointer identity is not modelled.
- Byte-level JSON encoding and the `omitempty` tag are not modelled. `JSONFormat.operation` is `None` exactly when the wire form would omit the field.
- The text of panic and error messages (`fmt.Sprintf`, `fmt.Errorf`) is not modelled. `PathError` carries the arguments of the `fmt.Errorf` calls. `DuplicateHTTP` carries the existing status and the `Code` value that Go's message prints with `%+v`; how `%+v` renders the struct and its parent pointer is not modelled.
- Registry.MetaDataFromAncestors: values are a type parameter. In the source a present entry holding nil stops the search and returns nil, which the caller cannot tell apart from "nothing on the chain". The model returns `Some(v)` for any present entry, so it keeps that difference visible. The HTTP registry cannot hold nil, because `SetHTTP` takes an `int`, so `HTTPCode`'s `.(int)` assertion cannot fail.
- The process-wide `httpMetaData` map is an explicit parameter. Its one-writer-at-start-up discipline is not modelled, and neither is concurrent access.
- The open `interface{}` client data is a closed `Payload` record. Only its embedded operation is visible. User types that define their own `GetOperation` or embed `CodedError` are not modelled. The domain variant covers types that implement `Code()`, `GetClientData()` or embed `EmbedOp`.
- Nil errors and an `OpErrCode` around a nil `ErrorCode` are not modelled. They make the source panic at run time. `WellFormed` states the typing the Go compiler enforces.
- `Op` returns a closure in the source. Here `AddOp` is a record holding the operation, and `AddTo` applies it.
- `CodeStr.String()` is not modelled. It is the identity conversion from `CodeStr` to `string`.

## Notes

- `checkCodePath` looks only at the second-to-last piece of a qualified child string. `Child(p, "x.<p's segment>.local")` is accepted for any `x`, as `Codes.ChildIgnoresOuterPieces` shows.
- A coded wrapper has no operation of its own. An `OpErrCode` wrapped inside a `CodedError` therefore loses its operation in the JSON record, though the message keeps the prefix. `ErrorCodes.JSONOperationOfCoded` and `ErrorCodes.JSONCodedHidesLabel` state this.
