/**
 * `UserDetailsRepository`: the signed-in user's details, kept in a
 * `UserDetailsEntity` row and in an in-memory copy that answers reads first.
 *
 * The rows are the managed-object context's view of the table: a change is
 * visible to later fetches as soon as it is made, and a failed `save()` does
 * not undo it. Whether a fetch or a save fails is a parameter; a fetch made
 * with `try?` that fails finds no row.
 */
module UserDetailsStore {
  import opened Wrappers

  /** `Data` */
  type Bytes = seq<bv8>

  /** `UserDetails`, which are also the four properties of a `UserDetailsEntity` row. */
  datatype UserDetails = UserDetails(
    email: Option<string>,
    displayName: Option<string>,
    uid: string,
    profileImage: Option<Bytes>)

  class UserDetailsRepository {
    /** The `UserDetailsEntity` rows, in fetch order. */
    var rows: seq<UserDetails>
    /** The private `userDetails` copy. */
    var userDetails: Option<UserDetails>

    /** A repository over a store that already holds `stored`, with nothing copied yet. */
    constructor (stored: seq<UserDetails>)
      ensures rows == stored && userDetails == None
    {
      rows := stored;
      userDetails := None;
    }

    /**
     * At most one row, and the copy, when there is one, is that row: the
     * state every successful operation leaves behind.
     */
    predicate Consistent()
      reads this
    {
      |rows| <= 1 && (userDetails.Some? ==> rows == [userDetails.value])
    }

    /**
     * `getUserDetails()`: the copy when there is one; otherwise the first row,
     * read through a fetch; otherwise nil. Reading never fills the copy.
     */
    function GetUserDetails(fetchOk: bool): (r: Option<UserDetails>)
      reads this
      ensures r.Some? <==> userDetails.Some? || (fetchOk && rows != [])
      ensures userDetails.Some? ==> r == userDetails
      ensures userDetails.None? && r.Some? ==> r.value == rows[0]
    {
      if userDetails.Some? then userDetails
      else if fetchOk && rows != [] then Some(rows[0])
      else None
    }

    /** `isUserLoggedIn`: there are details to read. */
    function IsUserLoggedIn(fetchOk: bool): (loggedIn: bool)
      reads this
      ensures loggedIn <==> GetUserDetails(fetchOk).Some?
      ensures loggedIn <==> userDetails.Some? || (fetchOk && rows != [])
    {
      GetUserDetails(fetchOk) != None
    }

    /** In a consistent repository the copy never disagrees with the row: a read gives the row, if any. */
    lemma ConsistentReadsRow(fetchOk: bool)
      requires Consistent()
      requires fetchOk || userDetails.Some?
      ensures GetUserDetails(fetchOk) == if rows == [] then None else Some(rows[0])
    {
    }

    /**
     * `saveUserDetails`: the first row found takes all four properties, or a
     * new row is inserted when the fetch finds none; only a successful save
     * updates the copy.
     */
    method SaveUserDetails(details: UserDetails, fetchOk: bool, saveOk: bool)
      modifies this
      ensures fetchOk && old(rows) != [] ==> rows == old(rows)[0 := details]
      ensures !(fetchOk && old(rows) != []) ==> rows == old(rows) + [details]
      ensures saveOk ==> userDetails == Some(details)
      ensures !saveOk ==> userDetails == old(userDetails)
      ensures saveOk ==> GetUserDetails(true) == Some(details) && GetUserDetails(false) == Some(details)
      ensures fetchOk && saveOk && |old(rows)| <= 1 ==> Consistent()
    {
      if fetchOk && rows != [] {
        rows := rows[0 := details];
      } else {
        rows := rows + [details];
      }
      if saveOk {
        userDetails := Some(details);
      }
    }

    /**
     * `saveProfileImage`: the first row takes the image and keeps its other
     * properties, and the copy becomes that row whether or not the save
     * succeeds (its failure is ignored). Without a row nothing happens.
     */
    method SaveProfileImage(image: Bytes, fetchOk: bool)
      modifies this
      ensures fetchOk && old(rows) != [] ==>
        && rows == old(rows)[0 := old(rows)[0].(profileImage := Some(image))]
        && userDetails == Some(rows[0])
      ensures !(fetchOk && old(rows) != []) ==> rows == old(rows) && userDetails == old(userDetails)
      ensures fetchOk && old(rows) != [] ==>
        var r := GetUserDetails(fetchOk).value;
        && r.profileImage == Some(image)
        && r.email == old(rows)[0].email
        && r.displayName == old(rows)[0].displayName
        && r.uid == old(rows)[0].uid
      ensures old(Consistent()) ==> Consistent()
    {
      if fetchOk && rows != [] {
        var entity := rows[0].(profileImage := Some(image));
        rows := rows[0 := entity];
        userDetails := Some(entity);
      }
    }

    /**
     * `deleteUserDetails`: the first row is deleted and the copy cleared,
     * whether or not the save succeeds. Without a row nothing happens.
     */
    method DeleteUserDetails(fetchOk: bool)
      modifies this
      ensures fetchOk && old(rows) != [] ==> rows == old(rows)[1..] && userDetails == None
      ensures !(fetchOk && old(rows) != []) ==> rows == old(rows) && userDetails == old(userDetails)
      ensures fetchOk && old(Consistent()) ==>
        && rows == [] && userDetails == None
        && !IsUserLoggedIn(true) && !IsUserLoggedIn(false)
    {
      if fetchOk && rows != [] {
        rows := rows[1..];
        userDetails := None;
      }
    }
  }

  /**
   * Signing in, changing the photo and signing out on an empty store: the
   * user is logged in after the save, the photo change keeps the email, name
   * and uid, and no details are left after the delete.
   */
  method SignInLifecycle(details: UserDetails, image: Bytes) {
    var repository := new UserDetailsRepository([]);
    assert !repository.IsUserLoggedIn(true);

    repository.SaveUserDetails(details, true, true);
    assert repository.GetUserDetails(true) == Some(details);
    assert repository.IsUserLoggedIn(true);
    assert repository.Consistent();

    repository.SaveProfileImage(image, true);
    assert repository.GetUserDetails(true) == Some(details.(profileImage := Some(image)));

    repository.DeleteUserDetails(true);
    assert repository.GetUserDetails(true) == None;
    assert !repository.IsUserLoggedIn(true);
  }
}
