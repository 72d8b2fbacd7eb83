/** The package constants the port consults. The module that defines them is
    not part of this model, so their values are left open: every operation
    takes them as a parameter and every property is proved for all of them.
    In particular `noDataPresent` and `defaultResponse` are never assumed to
    be equal, nor to be empty. */
module SerialConstants {
  import opened Base

  datatype Constants = Constants(
    /** Staged by a write whose payload has no configured response, and
        left behind by a read that empties the buffer. */
    noDataPresent: bytes,
    /** The value a read hands back whole, whatever the size asked for. */
    defaultResponse: bytes,
    /** Seconds slept by a read that asks for more than is pending. */
    defaultTimeout: real,
    defaultBaudrate: int)
}
