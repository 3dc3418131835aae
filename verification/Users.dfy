/** User lookup (src/common/user.c). A uid_t is an unsigned 32-bit number, so the two
    failure results -1 and -2 are the two largest uids.
 */
module Users {

  type Uid = n: int | 0 <= n < 0x1_0000_0000

  datatype Lookup = Found(uid: Uid) | NotFound | Failed

  const RS_MIN_UID: Uid := 1000
  const UID_NOT_FOUND: Uid := 0xFFFF_FFFF
  const UID_ERROR: Uid := 0xFFFF_FFFE

  function UserGetUid(entry: Lookup): Uid {
    match entry
    case NotFound => UID_NOT_FOUND
    case Failed => UID_ERROR
    case Found(uid) => uid
  }

  predicate UidAllowed(uid: Uid) {
    uid >= RS_MIN_UID
  }
}
