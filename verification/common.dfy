/** Shared vocabulary of the model: optional values, results that carry an
    error message, and the flat metadata values the vector index accepts. */
module Common {

  /** Python's `None` / value. */
  datatype Option<+T> = None | Some(value: T) {
    function GetOr(default: T): T {
      match this
      case Some(v) => v
      case None => default
    }
  }

  /** Either a value or the message of the exception that was raised. */
  datatype Result<+T> = Success(value: T) | Failure(error: string)

  /** A flat metadata value as the index stores it. Python's `int`, `float`
      and `bool` values are all numbers here. */
  datatype MetaValue = Str(s: string) | Num(x: real)

  /** The flat metadata dictionary attached to one index entry. */
  type Metadata = map<string, MetaValue>

  /** `d.get(key)` */
  function Get(d: Metadata, key: string): Option<MetaValue> {
    if key in d then Some(d[key]) else None
  }

  /** Python truthiness of an optional string: `None` and `""` are false. */
  predicate TruthyStr(s: Option<string>) {
    s.Some? && s.value != ""
  }

  /** Python truthiness of an optional number: `None` and `0` are false. */
  predicate TruthyNum(x: Option<real>) {
    x.Some? && x.value != 0.0
  }

  /** The configuration values the core reads (config.py). */
  datatype Config = Config(
    similarityThreshold: real,   // LONG_TERM_MEMORY_THRESHOLD
    maxMemories: nat,            // MAX_LONG_TERM_MEMORIES
    chunkSize: nat,              // CHUNK_SIZE
    chunkOverlap: nat,           // CHUNK_OVERLAP
    collectionName: string       // CHROMA_COLLECTION_NAME
  )

  const DefaultConfig := Config(0.2, 5, 1000, 200, "memory_collection")
}
