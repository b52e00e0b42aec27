/**
 * The request records the session layer and the password validator read. A password field
 * the client left out is `None` (Java `null`).
 */
module Requests {
  import opened Wrappers

  datatype LoginRequest = LoginRequest(username: string, password: string)

  datatype RefreshTokenRequest = RefreshTokenRequest(refreshToken: string)

  datatype RegisterRequest = RegisterRequest(
    name: string,
    username: string,
    email: string,
    password: Option<string>,
    confirmPassword: Option<string>,
    phone: string)

  datatype CreateUserRequest = CreateUserRequest(
    name: string,
    username: string,
    email: string,
    password: Option<string>,
    confirmPassword: Option<string>,
    phone: string,
    roleId: Option<int>)

  datatype UpdateUserRequest = UpdateUserRequest(
    name: string,
    username: string,
    email: string,
    password: Option<string>,
    confirmPassword: Option<string>,
    isActive: bool,
    phone: string,
    roleId: Option<int>)
}
