/**
 * `mask_user_handle` of services/supa.py: the public handle shown for a reporter,
 * made of a fixed prefix, at most the first four characters of the user id and a
 * fixed mask.
 */
module Supa {
  import opened Wrappers

  const HandlePrefix: string := "usr_"
  const HandleMask: string := "****"
  /** How many characters of the user id a handle reveals. */
  const Revealed: nat := 4

  /** Python's `s[:n]`: the first n characters, or all of s when it is shorter. */
  function Take(s: string, n: nat): (t: string)
    ensures |t| == if |s| < n then |s| else n
    ensures t <= s
  {
    if |s| <= n then s else s[..n]
  }

  /** `not user_id`: a missing id or the empty string. */
  predicate NoUserId(userId: Option<string>) {
    userId.None? || userId.value == ""
  }

  function MaskUserHandle(userId: Option<string>): (h: string)
    ensures HandlePrefix <= h && |h| >= |HandlePrefix| + |HandleMask|
    ensures h[|h| - |HandleMask|..] == HandleMask
  {
    if NoUserId(userId) then "usr_****"
    else HandlePrefix + Take(userId.value, Revealed) + HandleMask
  }

  /** The part of a handle between prefix and mask: the characters of the id it reveals. */
  function RevealedPart(h: string): string
    requires |h| >= |HandlePrefix| + |HandleMask|
  {
    h[|HandlePrefix|..|h| - |HandleMask|]
  }

  lemma BlankHandle(userId: Option<string>)
    ensures MaskUserHandle(userId) == "usr_****" <==> NoUserId(userId)
  {
  }

  /** A handle is eight characters plus the revealed part, which is the id's first four characters. */
  lemma HandleShape(userId: string)
    requires userId != ""
    ensures var h := MaskUserHandle(Some(userId));
      && |h| == 8 + (if |userId| < 4 then |userId| else 4)
      && RevealedPart(h) == Take(userId, 4)
      && (|userId| <= 4 ==> RevealedPart(h) == userId)
  {
    var h := MaskUserHandle(Some(userId));
    assert h == HandlePrefix + Take(userId, Revealed) + HandleMask;
  }

  /** Two non-blank ids get the same handle exactly when their first four characters agree. */
  lemma HandleDeterminedByPrefix(a: string, b: string)
    requires a != "" && b != ""
    ensures MaskUserHandle(Some(a)) == MaskUserHandle(Some(b)) <==> Take(a, 4) == Take(b, 4)
  {
    HandleShape(a);
    HandleShape(b);
  }
}
