/**
 * The browser's `localStorage` as the tab-tracking code sees it: an ordered set of
 * keys (the order `localStorage.key(i)` enumerates) and the text stored under each.
 *
 * Stored text is abstracted by what the readers in this page make of it (see `Value`).
 * Every access succeeds: a store that throws on access (disabled, over quota) is not
 * part of this model.
 */
module LocalStorage {
  import opened Wrappers

  /** The JSON object `detectDuplicateTab` writes under `browser_tab_state`. */
  datatype TabState = TabState(tabId: string, url: string, timestamp: int, userAgent: string)

  /** The JSON object `updateLastActiveTime` writes under `last_activity_<tabId>`. */
  datatype ActivityData = ActivityData(tabId: string, lastActive: int, url: string)

  /**
   * Stored text, classified by what `JSON.parse` and `parseInt` make of it:
   * - `Num(n)`: the decimal text of an integer (what `toString` writes for a count);
   *   `parseInt` reads `n`, `JSON.parse` reads a number that has no fields;
   * - `NotANumber`: the text "NaN" (what `toString` writes for NaN); both readers reject it
   *   (`parseInt` yields NaN, `JSON.parse` throws);
   * - `State`, `Activity`: the JSON text of the two records above;
   * - `Text(s)`: any other text (a session id, say); `JSON.parse` throws and `parseInt`
   *   yields NaN. `Text("")` is the only stored value JavaScript treats as false.
   */
  datatype Value =
    | Num(n: int)
    | NotANumber
    | State(state: TabState)
    | Activity(activity: ActivityData)
    | Text(text: string)
  {
    /** `getItem(key)` used as a condition: only the empty string is false. */
    predicate Truthy() {
      this != Text("")
    }

    /** `JSON.parse` accepts the text. */
    predicate IsJson() {
      Num? || State? || Activity?
    }
  }

  /** `parseInt` of the stored text: `None` stands for NaN. */
  function ParseInt(v: Value): (r: Option<int>)
    ensures r.Some? <==> v.Num?
    ensures v.Num? ==> r == Some(v.n)
  {
    if v.Num? then Some(v.n) else None
  }

  /** `Number.prototype.toString` of an integer or NaN, as stored by `setItem`. */
  function NumberText(n: Option<int>): (v: Value)
    ensures ParseInt(v) == n
  {
    match n
    case Some(k) => Num(k)
    case None => NotANumber
  }

  predicate Distinct(s: seq<string>) {
    forall i, j :: 0 <= i < j < |s| ==> s[i] != s[j]
  }

  /** `s` without `k`, in the same order. */
  function Without(s: seq<string>, k: string): (r: seq<string>)
    ensures |r| <= |s|
    ensures forall x :: x in r <==> x in s && x != k
  {
    if s == [] then [] else (if s[0] == k then [] else [s[0]]) + Without(s[1..], k)
  }

  lemma {:induction false} WithoutDistinct(s: seq<string>, k: string)
    requires Distinct(s)
    ensures Distinct(Without(s, k))
    decreases |s|
  {
    if s != [] {
      WithoutDistinct(s[1..], k);
      var r := Without(s[1..], k);
      assert s[0] !in s[1..] by {
        forall j | 0 <= j < |s[1..]| ensures s[1..][j] != s[0] {
          assert s[1..][j] == s[j + 1];
        }
      }
      assert s[0] !in r;
    }
  }

  /** In a list without repeats, removing the key at index `i` removes exactly that slot. */
  lemma {:induction false} WithoutAt(s: seq<string>, i: nat)
    requires Distinct(s) && i < |s|
    ensures Without(s, s[i]) == s[..i] + s[i + 1..]
    decreases |s|
  {
    if i == 0 {
      assert s[0] !in s[1..] by {
        forall j | 0 <= j < |s[1..]| ensures s[1..][j] != s[0] {
          assert s[1..][j] == s[j + 1];
        }
      }
      WithoutAbsent(s[1..], s[0]);
    } else {
      assert Distinct(s[1..]) by {
        forall p, q | 0 <= p < q < |s[1..]| ensures s[1..][p] != s[1..][q] {
          assert s[1..][p] == s[p + 1] && s[1..][q] == s[q + 1];
        }
      }
      assert s[1..][i - 1] == s[i];
      WithoutAt(s[1..], i - 1);
      assert s[0] != s[i];
      assert s[1..][..i - 1] + s[1..][i..] == s[1..i] + s[i + 1..];
      assert [s[0]] + s[1..i] == s[..i];
    }
  }

  lemma {:induction false} WithoutAbsent(s: seq<string>, k: string)
    requires k !in s
    ensures Without(s, k) == s
    decreases |s|
  {
    if s != [] {
      WithoutAbsent(s[1..], k);
    }
  }

  class Storage {
    /** `key(i)` is `keys[i]`; `length` is `|keys|`. */
    var keys: seq<string>
    var items: map<string, Value>

    ghost predicate Valid()
      reads this
    {
      Distinct(keys) && forall k :: k in items <==> k in keys
    }

    constructor ()
      ensures Valid() && keys == [] && items == map[]
    {
      keys := [];
      items := map[];
    }

    /** `getItem(key)`: the stored value, or `null` (`None`) for a key never set or removed. */
    function GetItem(key: string): (r: Option<Value>)
      reads this
      ensures r.Some? <==> key in items
      ensures key in items ==> r == Some(items[key])
    {
      if key in items then Some(items[key]) else None
    }

    /** `setItem(key, v)`: a new key is enumerated after the existing ones. */
    method SetItem(key: string, v: Value)
      requires Valid()
      modifies this
      ensures Valid()
      ensures items == old(items)[key := v]
      ensures keys == if key in old(keys) then old(keys) else old(keys) + [key]
    {
      if key !in keys {
        keys := keys + [key];
      }
      items := items[key := v];
    }

    /** `removeItem(key)`: the remaining keys keep their order; an absent key is no-op. */
    method RemoveItem(key: string)
      requires Valid()
      modifies this
      ensures Valid()
      ensures items == old(items) - {key}
      ensures keys == Without(old(keys), key)
    {
      WithoutDistinct(keys, key);
      keys := Without(keys, key);
      items := items - {key};
    }
  }
}
