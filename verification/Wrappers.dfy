/** Optional values, the error values of `vaultcore`, and results that carry one or the other. */
module Wrappers {

  datatype Option<+T> = None | Some(value: T)

  /** Why a byte string, a name or a value was refused by a parser. */
  datatype Malformed =
    | Truncated
    | BadMagic
    | UnsupportedVersion
    | Argon2Range
    | RecordNameUtf8
    | NameTooShort
    | NameRange
    | BadKind
    | ValueTooShort
    | ValueRange
    | ValueUtf8
    | BlobTooShort

  datatype ProviderFault = ChangedOnDisk | NoRecoveryEscrow | Argon2Failed

  /** The error type of the crate. Names are carried as their UTF-8 bytes. */
  datatype Error =
    | AuthFailed
    | Duplicate(name: seq<int>)
    | NotFound(name: seq<int>)
    | Format(why: Malformed)
    | Provider(fault: ProviderFault)
    | VaultLocked
    | Io

  datatype Result<+T> = Ok(value: T) | Err(error: Error) {
    predicate IsFailure() {
      Err?
    }

    function PropagateFailure<U>(): Result<U>
      requires Err?
    {
      Err(error)
    }

    function Extract(): T
      requires Ok?
    {
      value
    }
  }
}
