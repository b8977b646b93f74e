/**
  Who may lock and unlock fields: either everyone holding the `page-lock`
  permission, or, when the module is configured with a list of user ids, only
  the users on that list.
 */
module Permission {
  import opened PhpValues

  /** The configured `lockUsers`: a list of ids as stored by the configuration
      form, or a space-separated string of ids. */
  datatype LockUsers = UserList(entries: seq<Scalar>) | UserText(text: string)

  /** `empty($lockUsers)` */
  predicate NoLockUsers(lockUsers: LockUsers) {
    match lockUsers
    case UserList(entries) => entries == []
    case UserText(text) => EmptyString(text)
  }

  /** The list `hasPermission` walks: a string is split at single spaces. */
  function Entries(lockUsers: LockUsers): (entries: seq<Scalar>)
    ensures lockUsers.UserText? ==> |entries| == |Explode(lockUsers.text)|
    ensures lockUsers.UserText? ==>
              forall i :: 0 <= i < |entries| ==> entries[i] == StrVal(Explode(lockUsers.text)[i])
    ensures lockUsers.UserList? ==> entries == lockUsers.entries
  {
    match lockUsers
    case UserList(entries) => entries
    case UserText(text) => seq(|Explode(text)|, i requires 0 <= i < |Explode(text)| => StrVal(Explode(text)[i]))
  }

  /** Some entry of the list, cast to an integer, is the user's id. */
  ghost predicate Listed(entries: seq<Scalar>, userId: int) {
    exists i :: 0 <= i < |entries| && ToInt(entries[i]) == userId
  }

  /** The permission `hasPermission` grants. */
  ghost predicate Granted(lockUsers: LockUsers, userId: int, hasPageLockPermission: bool) {
    if NoLockUsers(lockUsers) then hasPageLockPermission
    else Listed(Entries(lockUsers), userId)
  }

  /** Whether the user may lock fields. With no allow-list the answer is the
      user's `page-lock` permission on the page, passed in as
      `hasPageLockPermission`; otherwise it is whether some entry of the list,
      cast to an integer, equals the user's id. */
  method HasPermission(lockUsers: LockUsers, userId: int, hasPageLockPermission: bool) returns (has: bool)
    ensures NoLockUsers(lockUsers) ==> (has <==> hasPageLockPermission)
    ensures !NoLockUsers(lockUsers) ==> (has <==> Listed(Entries(lockUsers), userId))
    ensures has == Granted(lockUsers, userId, hasPageLockPermission)
  {
    if NoLockUsers(lockUsers) {
      has := hasPageLockPermission;
    } else {
      has := FindUser(Entries(lockUsers), userId);
    }
  }

  /** The loop of `hasPermission`: walk the entries until one, cast to an
      integer, equals the user's id. */
  method FindUser(entries: seq<Scalar>, userId: int) returns (found: bool)
    ensures found <==> Listed(entries, userId)
  {
    found := false;
    var i := 0;
    while i < |entries|
      invariant 0 <= i <= |entries|
      invariant !found
      invariant forall j :: 0 <= j < i ==> ToInt(entries[j]) != userId
    {
      if userId != ToInt(entries[i]) {
        i := i + 1;
        continue;
      }
      found := true;
      break;
    }
  }

  /** A user whose id is one of the pieces of the allow-list string is
      granted, whatever else is on the list and whether or not they hold
      `page-lock`: the only id of "41", the first or last of "41 42", or any
      other. The one exception is the string "0", which `empty()` reads as
      no allow-list at all. */
  lemma ListedUserGranted(pieces: seq<string>, k: nat, hasPageLockPermission: bool)
    requires |pieces| >= 1 && forall i :: 0 <= i < |pieces| ==> ' ' !in pieces[i]
    requires k < |pieces| && IsDigits(pieces[k])
    requires Implode(pieces) != "0"
    ensures !NoLockUsers(UserText(Implode(pieces)))
    ensures Granted(UserText(Implode(pieces)), DigitsValue(pieces[k]), hasPageLockPermission)
  {
    var text := Implode(pieces);
    ExplodeImplode(pieces);
    ImplodeKeeps(pieces, k);
    assert ToInt(Entries(UserText(text))[k]) == IntCast(pieces[k]);
  }

  /** Joining keeps every piece, so a list with a non-empty piece joins to a
      non-empty string. */
  lemma {:induction false} ImplodeKeeps(pieces: seq<string>, k: nat)
    requires |pieces| >= 1 && k < |pieces| && pieces[k] != ""
    ensures Implode(pieces) != ""
  {
    if |pieces| > 1 && k > 0 {
      ImplodeKeeps(pieces[1..], k - 1);
    }
  }
}
