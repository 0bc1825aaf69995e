/** EasyAWS: credentials and a connection that is authenticated on first use only. */
module Aws {
  import opened Wrappers
  import opened PyStr

  datatype Credentials = Credentials(accessKeyId: String, secretAccessKey: String)

  /** An authenticated boto connection; the model does not look inside it. */
  datatype Handle = Handle(session: nat)

  class EasyAWS {
    const credentials: Credentials
    /** The connection authenticator given at construction (`boto.connect_ec2`, `boto.connect_s3`). */
    const authenticator: Credentials -> Handle
    /** `_conn`. */
    var connection: Option<Handle>
    /** How many times the authenticator has been called. */
    ghost var authentications: nat

    /** The authenticator has run once exactly when a connection is held, and made that connection. */
    ghost predicate Valid()
      reads this
    {
      && authentications == (if connection.Some? then 1 else 0)
      && (connection.Some? ==> connection.value == authenticator(credentials))
    }

    constructor (credentials: Credentials, authenticator: Credentials -> Handle)
      ensures Valid()
      ensures this.credentials == credentials && this.authenticator == authenticator
      ensures connection == None && authentications == 0
    {
      this.credentials := credentials;
      this.authenticator := authenticator;
      connection := None;
      authentications := 0;
    }

    /** The `conn` property: authenticate on the first read, hand back the same connection after. */
    method Conn() returns (h: Handle)
      requires Valid()
      modifies this
      ensures Valid()
      ensures connection == Some(h) && h == authenticator(credentials)
      ensures old(connection).Some? ==> h == old(connection).value && authentications == old(authentications)
      ensures old(connection).None? ==> authentications == old(authentications) + 1
      ensures authentications <= 1
    {
      if connection.None? {
        connection := Some(authenticator(credentials));
        authentications := authentications + 1;
      }
      h := connection.value;
    }
  }
}
