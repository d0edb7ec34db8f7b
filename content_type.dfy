/** Recognising a multipart request from its content-type header. */
module ContentType {

  import opened Wrappers
  import opened JsText

  const FormDataPrefix: string := "multipart/form-data;"
  const BoundaryKey: string := "boundary="

  /** No character of s is a line terminator, so `.*` followed by `$` can
      match all of it. */
  predicate OnOneLine(s: string) {
    forall i :: 0 <= i < |s| ==> !IsLineTerminator(s[i])
  }

  /** The boundary token captured by `^multipart\/form-data;\sboundary=(.*)$`,
      or None when the header is absent or does not match. The match is
      case-sensitive, takes exactly one white-space character after the ';',
      and takes the rest of the header, quotes and further parameters
      included, as the token. */
  function ParseBoundary(contentType: Option<string>): (r: Option<string>)
    ensures r.Some? ==> contentType.Some? && |contentType.value| >= 30 &&
                        IsJsSpace(contentType.value[20]) && OnOneLine(r.value) &&
                        contentType.value == FormDataPrefix + [contentType.value[20]] + BoundaryKey + r.value
  {
    match contentType
    case None => None
    case Some(ct) =>
      if |ct| >= 30 && ct[..20] == FormDataPrefix && IsJsSpace(ct[20]) &&
         ct[21..30] == BoundaryKey && OnOneLine(ct[30..])
      then
        assert ct == ct[..20] + [ct[20]] + ct[21..30] + ct[30..];
        Some(ct[30..])
      else None
  }

  /** Every header of the accepted shape is accepted, and its token is
      everything after "boundary=". */
  lemma ParseBoundaryAccepts(space: char, token: string)
    requires IsJsSpace(space) && OnOneLine(token)
    ensures ParseBoundary(Some(FormDataPrefix + [space] + BoundaryKey + token)) == Some(token)
  {
    var ct := FormDataPrefix + [space] + BoundaryKey + token;
    assert ct[..20] == FormDataPrefix;
    assert ct[21..30] == BoundaryKey;
    assert ct[30..] == token;
  }
}
