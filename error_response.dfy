/**
 * The single error kind of the service, "student not found", and the body it
 * is reported with.
 */
module Errors {
  import opened Wrappers
  import opened Decimal

  /** The error body: a fixed code, a message naming the id, and a correlation token. */
  datatype ErrorResponse = ErrorResponse(errorCode: string, errorMessage: string, referenceId: string)

  /** The code the service writes inline; it equals `Constants.STUDENT_NOT_FOUND_ERROR_CODE`. */
  const NotFoundCode: string := "STUDENT_NOT_FOUND"

  /** The message prefix the service writes inline: it ends in a colon, with no space after it. */
  const NotFoundPrefix: string := "Student does not exist with id:"

  /** `Constants.STUDENT_NOT_FOUND_ERROR_MESSAGE`, which the service does not use. */
  const ConstantsNotFoundMessage: string := "Student does not exist with id: "

  predicate IsLowerHex(c: char) {
    '0' <= c <= '9' || 'a' <= c <= 'f'
  }

  /**
   * The text `UUID.randomUUID().toString()` produces: 32 lower-case hex digits
   * in groups 8-4-4-4-12, version nibble 4 and the IETF variant (8, 9, a or b).
   */
  predicate IsUuidString(s: string) {
    && |s| == 36
    && (forall i :: 0 <= i < 36 && i in {8, 13, 18, 23} ==> s[i] == '-')
    && (forall i :: 0 <= i < 36 && i !in {8, 13, 18, 23} ==> IsLowerHex(s[i]))
    && s[14] == '4'
    && s[19] in {'8', '9', 'a', 'b'}
  }

  /** The message built by `"Student does not exist with id:" + id`. */
  function NotFoundMessage(id: int): (m: string)
    ensures |m| > |NotFoundPrefix| && m[..|NotFoundPrefix|] == NotFoundPrefix
    ensures ParseLong(m[|NotFoundPrefix|..]) == Some(id)
    ensures IsCanonicalLong(m[|NotFoundPrefix|..])
  {
    var m := NotFoundPrefix + LongToString(id);
    assert m[|NotFoundPrefix|..] == LongToString(id);
    LongRoundTrip(id);
    m
  }

  /**
   * The body built in both not-found branches of the service, given the
   * freshly generated token.
   */
  function NotFoundError(id: int, referenceId: string): (e: ErrorResponse)
    requires IsUuidString(referenceId)
    ensures e.errorCode == NotFoundCode
    ensures e.errorMessage == NotFoundMessage(id)
    ensures e.referenceId == referenceId && |e.referenceId| == 36
  {
    ErrorResponse(NotFoundCode, NotFoundMessage(id), referenceId)
  }

  /**
   * The message is the prefix followed by the one canonical text of the id:
   * no other tail, a zero-padded one for instance, gives the same message.
   */
  lemma NotFoundMessageIsCanonical(id: int, tail: string)
    requires IsCanonicalLong(tail) && ParseLong(tail) == Some(id)
    ensures NotFoundMessage(id) == NotFoundPrefix + tail
  {
    CanonicalLongRoundTrip(tail);
  }

  /** The message names the requested id: two error bodies for different ids never share a message. */
  lemma NotFoundMessageInjective(a: int, b: int)
    ensures NotFoundMessage(a) == NotFoundMessage(b) ==> a == b
  {
  }

  /**
   * The message the service produces is never the one its constant (and its
   * tests) spell: after the colon comes the id's first character, a digit or
   * a minus sign, where the constant has a space.
   */
  lemma NotFoundMessageDiffersFromConstant(id: int)
    ensures NotFoundMessage(id) != ConstantsNotFoundMessage + LongToString(id)
  {
  }
}
