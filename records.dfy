/** The values the pipeline passes between its stages. */
module Records {

  /** The `(account, qos)` tuple both the association table and the usage
      table are keyed by. */
  datatype Key = Key(account: string, qos: string)

  /** The `default` entry of an association record: absent (a catalog record
      no association row has touched yet), Python's `None` (the row listed a
      single QoS), or a boolean (the QoS is or is not the row's default QoS). */
  datatype DefaultFlag = Unset | NoChoice | Default(isDefault: bool)

  /** The exceptions the core can raise on well-formed rows. */
  datatype Error =
    | MalformedPair(token: string)     // `k, v = x.split('=')` unpacks a wrong number of parts
    | NotAnInteger(text: string)       // `int(...)` rejects the text
    | MissingBilling(key: Key)         // a usage entry has no `billing` total
    | MissingDefault(key: Key)         // an association record has no `default` entry

  /** A QoS (or association) record: the dict `{tres: minutes, ...}` built
      from `grptresmins`, plus the `default` entry the association loader
      writes into it. The loaders share these objects between keys, so they
      are heap objects. */
  class QosRecord {
    var tres: map<string, int>
    var default: DefaultFlag

    constructor (tres: map<string, int>)
      ensures this.tres == tres && default == Unset
    {
      this.tres := tres;
      default := Unset;
    }
  }
}
