/** The classification tag of an error and its HTTP status code (kind.go).
    Kind is a plain string in Go, so any string is a Kind; the seventeen
    named constants are the ones the package defines. */
module Kinds {

  type Kind = string

  const KindCanceled: Kind := "CANCELED"
  const KindUnknown: Kind := "UNKNOWN"
  const KindInvalidArgument: Kind := "INVALID_ARGUMENT"
  const KindDeadlineExceeded: Kind := "DEADLINE_EXCEEDED"
  const KindNotFound: Kind := "NOT_FOUND"
  const KindAlreadyExists: Kind := "ALREADY_EXISTS"
  const KindPermissionDenied: Kind := "PERMISSION_DENIED"
  const KindUnauthenticated: Kind := "UNAUTHENTICATED"
  const KindResourceExhausted: Kind := "RESOURCE_EXHAUSTED"
  const KindFailedPrecondition: Kind := "FAILED_PRECONDITION"
  const KindAborted: Kind := "ABORTED"
  const KindOutOfRange: Kind := "OUT_OF_RANGE"
  const KindUnimplemented: Kind := "UNIMPLEMENTED"
  const KindInternal: Kind := "INTERNAL"
  const KindUnavailable: Kind := "UNAVAILABLE"
  const KindDataLoss: Kind := "DATA_LOSS"
  /** The zero value of Kind: the kind of a node nobody classified. */
  const KindNone: Kind := ""

  /** The named kinds, in declaration order. */
  const AllKinds: seq<Kind> := [
    KindCanceled, KindUnknown, KindInvalidArgument, KindDeadlineExceeded,
    KindNotFound, KindAlreadyExists, KindPermissionDenied, KindUnauthenticated,
    KindResourceExhausted, KindFailedPrecondition, KindAborted, KindOutOfRange,
    KindUnimplemented, KindInternal, KindUnavailable, KindDataLoss, KindNone
  ]

  /** Every status code the mapping can produce. */
  const StatusCodes: set<int> := {400, 401, 403, 404, 408, 409, 412, 500, 501, 503}

  /** The status table written as data, one entry per named kind; it is the
      reference the switch below is checked against. */
  const StatusTable: map<Kind, int> := map[
    KindCanceled := 408, KindDeadlineExceeded := 408,
    KindUnknown := 500,
    KindInvalidArgument := 400, KindOutOfRange := 400,
    KindNotFound := 404,
    KindAlreadyExists := 409, KindAborted := 409,
    KindPermissionDenied := 403, KindResourceExhausted := 403,
    KindUnauthenticated := 401,
    KindFailedPrecondition := 412,
    KindUnimplemented := 501,
    KindInternal := 500, KindDataLoss := 500, KindNone := 500,
    KindUnavailable := 503
  ]

  /** Kind.ToStatusCode: the switch over the named kinds, in the order the
      Go switch lists them, with Internal Server Error for every other string. */
  function ToStatusCode(k: Kind): (code: int)
    ensures code in StatusCodes
    ensures k !in AllKinds ==> code == 500
  {
    if k == KindCanceled || k == KindDeadlineExceeded then 408
    else if k == KindUnknown then 500
    else if k == KindInvalidArgument then 400
    else if k == KindNotFound then 404
    else if k == KindAlreadyExists || k == KindAborted then 409
    else if k == KindPermissionDenied then 403
    else if k == KindUnauthenticated then 401
    else if k == KindResourceExhausted then 403
    else if k == KindFailedPrecondition then 412
    else if k == KindOutOfRange then 400
    else if k == KindUnimplemented then 501
    else if k == KindInternal || k == KindDataLoss || k == KindNone then 500
    else if k == KindUnavailable then 503
    else 500
  }

  /** The seventeen named kinds are pairwise distinct strings. */
  lemma KindsDistinct()
    ensures |AllKinds| == 17
    ensures forall i, j :: 0 <= i < j < |AllKinds| ==> AllKinds[i] != AllKinds[j]
  {
  }

  /** The table covers exactly the named kinds. */
  lemma TableCoversNamedKinds()
    ensures forall k :: k in StatusTable <==> k in AllKinds
  {
  }

  /** The switch agrees with the table on every string, and falls back to 500 off it. */
  lemma ToStatusCodeMatchesTable(k: Kind)
    ensures ToStatusCode(k) == if k in StatusTable then StatusTable[k] else 500
  {
    TableCoversNamedKinds();
    if k in StatusTable {
      var i :| 0 <= i < |AllKinds| && AllKinds[i] == k;
      NamedKindsMatchTable(i);
    }
  }

  /** The switch and the table agree on each named kind. */
  lemma NamedKindsMatchTable(i: int)
    requires 0 <= i < |AllKinds|
    ensures AllKinds[i] in StatusTable && ToStatusCode(AllKinds[i]) == StatusTable[AllKinds[i]]
  {
    if i < 6 {
    } else if i < 12 {
    } else {
    }
  }

  /** Timeouts: canceled and deadline-exceeded are 408 Request Timeout. */
  lemma TimeoutKinds()
    ensures ToStatusCode(KindCanceled) == 408
    ensures ToStatusCode(KindDeadlineExceeded) == 408
  {
  }

  /** Bad requests: invalid-argument and out-of-range are 400, not-found is 404. */
  lemma ClientErrorKinds()
    ensures ToStatusCode(KindInvalidArgument) == 400
    ensures ToStatusCode(KindOutOfRange) == 400
    ensures ToStatusCode(KindNotFound) == 404
  {
  }

  /** Conflicts and access: 409 for already-exists and aborted, 403 for
      permission-denied and resource-exhausted, 401 for unauthenticated. */
  lemma ConflictAndAccessKinds()
    ensures ToStatusCode(KindAlreadyExists) == 409
    ensures ToStatusCode(KindAborted) == 409
    ensures ToStatusCode(KindPermissionDenied) == 403
    ensures ToStatusCode(KindResourceExhausted) == 403
    ensures ToStatusCode(KindUnauthenticated) == 401
  {
  }

  /** Service state: failed-precondition 412, unimplemented 501, unavailable 503. */
  lemma ServiceStateKinds()
    ensures ToStatusCode(KindFailedPrecondition) == 412
    ensures ToStatusCode(KindUnimplemented) == 501
    ensures ToStatusCode(KindUnavailable) == 503
  {
  }

  /** Server errors: unknown, internal, data-loss and the empty kind are all 500. */
  lemma ServerErrorKinds()
    ensures ToStatusCode(KindUnknown) == 500
    ensures ToStatusCode(KindInternal) == 500
    ensures ToStatusCode(KindDataLoss) == 500
    ensures ToStatusCode(KindNone) == 500 && KindNone == ""
  {
  }
}
