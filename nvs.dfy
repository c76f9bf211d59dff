/**
 * The ESP-IDF non-volatile storage (NVS) as the attendance core uses it: two namespaces,
 * `tags` (presence markers, `int8_t` values) and `time` (the ledger of fixed-size blobs).
 * Each primitive is one atomic map update whose outcome may be an injected error.
 */
module Nvs {
  import opened Esp

  /** `tag_direction_t`: `IN` is 0, `OUT` is 1. */
  datatype Direction = In | Out

  /** `time_blob_t`: the badge's decimal tag string and the direction of the transition. */
  datatype TimeBlob = TimeBlob(tag: string, direction: Direction)

  datatype Namespace = TagsNamespace | TimeNamespace

  /** The contents of both namespaces. */
  datatype State = State(tags: map<string, int>, time: map<string, TimeBlob>)

  /** The result of reading or erasing a key: the injected fault, or else found / not found. */
  function LookupStatus(present: bool, fault: Fault): (err: Status)
    ensures fault != Ok ==> err == fault
    ensures fault == Ok ==> (err == Ok <==> present) && (err != Ok ==> err == NotFound)
  {
    if fault != Ok then fault else if present then Ok else NotFound
  }

  /**
   * The order in which `nvs_entry_find`/`nvs_entry_next` present the keys of `time`, and the
   * fault injected into each iterator step (step 0 is `nvs_entry_find`).
   */
  datatype Enumeration = Enumeration(order: seq<string>, steps: seq<Fault>)

  /** The status of iterator step `i`: `Ok` when it yields entry `i`, `NotFound` past the end. */
  function IterStatus(e: Enumeration, i: nat): (res: Status)
    ensures res == Ok <==> FaultAt(e.steps, i) == Ok && i < |e.order|
  {
    if FaultAt(e.steps, i) != Ok then FaultAt(e.steps, i)
    else if i < |e.order| then Ok
    else NotFound
  }

  /** `order` lists every key of `time` exactly once, as the store's enumeration does. */
  ghost predicate Enumerates(order: seq<string>, time: map<string, TimeBlob>) {
    (forall k :: k in time <==> k in order) &&
    (forall i, j :: 0 <= i < j < |order| ==> order[i] != order[j])
  }

  class Store {
    var tags: map<string, int>
    var time: map<string, TimeBlob>

    constructor ()
      ensures tags == map[] && time == map[]
    {
      tags, time := map[], map[];
    }

    function Contents(): State
      reads this
    {
      State(tags, time)
    }

    /** `nvs_open`: no change to the data. */
    method Open(ns: Namespace, fault: Fault) returns (err: Status)
      ensures err == fault
    {
      err := fault;
    }

    /** `nvs_commit`: the model's writes are already in place, so only its status matters. */
    method Commit(ns: Namespace, fault: Fault) returns (err: Status)
      ensures err == fault
    {
      err := fault;
    }

    /** `nvs_get_i8` on the `tags` namespace. */
    method GetI8(key: string, fault: Fault) returns (err: Status, value: int)
      ensures err == LookupStatus(key in tags, fault)
      ensures err == Ok ==> key in tags && value == tags[key]
    {
      err := LookupStatus(key in tags, fault);
      value := if err == Ok then tags[key] else 0;
    }

    /** `nvs_set_i8` on the `tags` namespace. */
    method SetI8(key: string, value: int, fault: Fault) returns (err: Status)
      modifies this
      ensures err == fault
      ensures tags == if err == Ok then old(tags)[key := value] else old(tags)
      ensures time == old(time)
    {
      err := fault;
      if err == Ok {
        tags := tags[key := value];
      }
    }

    /** `nvs_erase_key` on the `tags` namespace: `NotFound` when the key is absent. */
    method EraseKey(key: string, fault: Fault) returns (err: Status)
      modifies this
      ensures err == LookupStatus(key in old(tags), fault)
      ensures tags == if err == Ok then old(tags) - {key} else old(tags)
      ensures time == old(time)
    {
      err := LookupStatus(key in tags, fault);
      if err == Ok {
        tags := tags - {key};
      }
    }

    /** `nvs_set_blob` on the `time` namespace: a later write to the same key replaces the blob. */
    method SetBlob(key: string, blob: TimeBlob, fault: Fault) returns (err: Status)
      modifies this
      ensures err == fault
      ensures time == if err == Ok then old(time)[key := blob] else old(time)
      ensures tags == old(tags)
    {
      err := fault;
      if err == Ok {
        time := time[key := blob];
      }
    }

    /** `nvs_get_blob` on the `time` namespace. */
    method GetBlob(key: string, fault: Fault) returns (err: Status, blob: TimeBlob)
      ensures err == LookupStatus(key in time, fault)
      ensures err == Ok ==> key in time && blob == time[key]
    {
      err := LookupStatus(key in time, fault);
      blob := if err == Ok then time[key] else TimeBlob([], In);
    }

    /** `nvs_entry_find` / `nvs_entry_next`: step `i` of the enumeration of `time`. */
    method EntryStep(e: Enumeration, i: nat) returns (res: Status, key: string)
      ensures res == IterStatus(e, i)
      ensures res == Ok ==> i < |e.order| && key == e.order[i]
    {
      res := IterStatus(e, i);
      key := if res == Ok then e.order[i] else [];
    }
  }
}
