/** Shared vocabulary: results, errors, machine bounds and white-space trimming. */
module Prelude {
  const TWO_63: int := 0x8000_0000_0000_0000
  const TWO_64: int := 0x1_0000_0000_0000_0000

  datatype Option<+T> = None | Some(value: T)

  datatype Result<+T, +E> = Ok(value: T) | Err(error: E)

  /** Every sentinel error of the domain, the ports and the use cases. */
  datatype Error =
    | EmptyCode
    | ZeroDestination
    | EmptyOwnerID
    | ZeroCreatedAt
    | InvalidExpiresAt
    | InvalidTransition
    | ZeroUpdatedAt
    | UpdateBeforeCreatedAt
    | UpdateNotAfterPrevious
    | DeletedLink
    | UnchangedDestination
    | UnchangedExpiration
    | NoExpiration
    | ZeroVersion
    | InvalidLinkStatus
    | MalformedDestination
    | LinkNotFound
    | LinkAlreadyExists
    | VersionConflict
    | LinkAccessDenied
    | InvalidExpectedVersion
    | IdempotencyKeyNotFound
    | IdempotencyKeyConflict
    | CodeGenerationExhausted
    | RedirectCacheMiss
    | CorruptCacheEntry
    | CacheTTLTooShort
    | InvalidCacheConfig
    | LinkUnavailable
    | ContextDone
    | Backend

  lemma Distribute(x: int, n: int)
    ensures x * (n + 1) == x * n + x
  {
  }

  /** Unicode white space, as Go's strings.TrimSpace understands it. */
  predicate IsSpace(c: char) {
    || c in {'\t', '\n', '\U{000B}', '\U{000C}', '\r', ' ', '\U{0085}', '\U{00A0}', '\U{1680}'}
    || '\U{2000}' <= c <= '\U{200A}'
    || c in {'\U{2028}', '\U{2029}', '\U{202F}', '\U{205F}', '\U{3000}'}
  }

  predicate Trimmed(s: string) {
    s == "" || (!IsSpace(s[0]) && !IsSpace(s[|s| - 1]))
  }

  function TrimSpace(s: string): (t: string)
    ensures Trimmed(t) && |t| <= |s|
    ensures Trimmed(s) ==> t == s
    decreases |s|
  {
    if s == "" then s
    else if IsSpace(s[0]) then TrimSpace(s[1..])
    else if IsSpace(s[|s| - 1]) then TrimSpace(s[..|s| - 1])
    else s
  }

  /** Everything that TrimSpace takes away is white space at the two ends. */
  lemma {:induction false} TrimSpaceStrips(s: string) returns (i: nat, j: nat)
    ensures i <= j <= |s| && TrimSpace(s) == s[i..j]
    ensures forall k :: 0 <= k < i || j <= k < |s| ==> IsSpace(s[k])
    decreases |s|
  {
    i, j := 0, |s|;
    assert s[..] == s;
    if s != "" && IsSpace(s[0]) {
      i, j := TrimSpaceStrips(s[1..]);
      assert s[1..][i..j] == s[i + 1..j + 1];
      forall k | 0 <= k < i + 1 || j + 1 <= k < |s| ensures IsSpace(s[k]) {
        if k > 0 {
          assert s[k] == s[1..][k - 1];
        }
      }
      i, j := i + 1, j + 1;
    } else if s != "" && IsSpace(s[|s| - 1]) {
      var init := s[..|s| - 1];
      i, j := TrimSpaceStrips(init);
      assert init[i..j] == s[i..j];
      assert forall k :: 0 <= k < |init| ==> s[k] == init[k];
    }
  }
}
