/** The user record and the request shapes of the user module. Field names
    follow the schema (`full_name` is `fullName`, `password_hash` is
    `passwordHash`, and so on); dates are millisecond timestamps. */
module UserTypes {
  import opened Wrappers

  type UserId = string
  type Timestamp = int

  /** A stored user row (`IUser` plus the store-assigned `id`). It holds the
      password hash and never the plaintext password. */
  datatype User = User(
    id: UserId,
    shopId: string,
    username: string,
    email: string,
    passwordHash: string,
    fullName: Option<string>,
    phone: Option<string>,
    isActive: bool,
    lastLogin: Option<Timestamp>,
    createdAt: Timestamp)

  /** `CreateUserDTO`: carries the plaintext password. */
  datatype CreateUserDto = CreateUserDto(
    shopId: string,
    username: string,
    email: string,
    password: string,
    fullName: Option<string>,
    phone: Option<string>)

  /** `UpdateUserDTO`: the only fields an update may carry. */
  datatype UpdateUserDto = UpdateUserDto(
    fullName: Option<string>,
    phone: Option<string>,
    isActive: Option<bool>)

  /** A read projection of a user row. It has no password field at all;
      `isActive` and `createdAt` are present only when the projection
      selects them. */
  datatype UserView = UserView(
    id: UserId,
    shopId: string,
    username: string,
    email: string,
    fullName: Option<string>,
    phone: Option<string>,
    isActive: Option<bool>,
    createdAt: Option<Timestamp>)

  /** The generic failures the store raises; the service does not translate
      them. */
  datatype StoreError =
    | UniqueViolation   // duplicate id, username or email on insert
    | RecordNotFound    // update of an id that is not in the table
    | NegativeSkip      // a page window with a negative offset
}
