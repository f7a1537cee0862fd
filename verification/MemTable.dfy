/** The memtable: a skip list of C strings, and the two ways the database writes to it. */
module MemTables {
  import opened Bytes
  import opened SkipLists

  datatype OpType = Deletion | Add | Update

  /** What `std::string(view.data())` keeps of a view: the bytes before its first NUL. */
  function CStr(s: bytes): (r: bytes)
    ensures r <= s && 0 !in r
    ensures r == s <==> 0 !in s
    ensures r != s ==> s[|r|] == 0
  {
    if s == [] || s[0] == 0 then [] else [s[0]] + CStr(s[1..])
  }

  /** The effect of one operation on the table's map. */
  function Applied(m: map<bytes, bytes>, op: OpType, key: bytes, value: bytes): map<bytes, bytes> {
    match op
    case Add => if key in m then m else m[key := value]
    case Update => m[key := value]
    case Deletion => m[key := []]
  }

  /** An Add leaves the key at the new value, as the header promises, exactly if the key was absent or
      had that value: otherwise the old value stays. */
  lemma AddUpdates(m: map<bytes, bytes>, key: bytes, value: bytes)
    ensures Applied(m, Add, key, value) == m[key := value] <==> key !in m || m[key] == value
  {
    if key in m { assert m[key := value][key] == value; }
  }

  class MemTable {
    const table: SkipList

    ghost predicate Valid()
      reads table, table.nodes
    {
      table.Valid()
    }

    ghost function Contents(): map<bytes, bytes>
      reads table
    {
      table.Contents()
    }

    constructor ()
      ensures Valid() && fresh(table) && fresh(table.nodes) && Contents() == map[]
    {
      table := new SkipList();
    }

    method Insert(op: OpType, key: bytes, value: bytes)
      requires Valid()
      modifies table, table.nodes
      ensures Valid() && forall p :: 0 <= p < |table.nodes| ==> table.nodes[p] in old(table.nodes) || fresh(table.nodes[p])
      ensures Contents() == Applied(old(Contents()), op, CStr(key), CStr(value))
    {
      hide Shape, MapOf, Usage, CStr;
      match op {
        case Add =>
          table.Insert(CStr(key), CStr(value));
        case Update =>
          table.Delete(CStr(key));
          table.Insert(CStr(key), CStr(value));
        case Deletion =>
          var present := table.Contains(CStr(key));
          if present {
            table.Delete(CStr(key));
          }
          table.Insert(CStr(key), []);
      }
    }

    method Contains(key: bytes) returns (found: bool)
      requires Valid()
      ensures found <==> CStr(key) in Contents()
    {
      found := table.Contains(CStr(key));
    }

    method Get(key: bytes) returns (found: Option<bytes>)
      requires Valid()
      ensures found == if CStr(key) in Contents() then Some(Contents()[CStr(key)]) else None
    {
      found := table.Get(CStr(key));
    }

    method GetMemUsage() returns (n: int)
      requires Valid()
      ensures n == TotalBytes(Pairs(table.nodes, 1)) && Enumerates(Pairs(table.nodes, 1), Contents())
    {
      ListEnumeratesMap(table.nodes);
      n := table.memUsage;
    }

    method GetSize() returns (n: int)
      requires Valid()
      ensures n == |Contents()|
    {
      ListEnumeratesMap(table.nodes);
      n := table.size;
    }
  }

  /** A write as the database's clients see it. */
  datatype Write = Put(key: bytes, value: bytes) | Delete(key: bytes)

  /** The value a write leaves at a key: a deletion leaves the empty value. */
  function Written(w: Write): bytes {
    match w
    case Put(_, value) => value
    case Delete(_) => []
  }

  /** The last value written under exactly this key, if any. */
  function LastWrite(history: seq<Write>, key: bytes): Option<bytes> {
    if history == [] then None
    else if history[|history| - 1].key == key then Some(Written(history[|history| - 1]))
    else LastWrite(history[..|history| - 1], key)
  }

  ghost predicate NulFree(history: seq<Write>) {
    forall i :: 0 <= i < |history| ==> 0 !in history[i].key && 0 !in Written(history[i])
  }

  /** What the memtable makes of a history: keys and values are cut at their first NUL. */
  ghost function After(history: seq<Write>): map<bytes, bytes> {
    if history == [] then map[]
    else var w := history[|history| - 1];
      After(history[..|history| - 1])[CStr(w.key) := CStr(Written(w))]
  }

  lemma AfterOneMore(history: seq<Write>, w: Write)
    ensures After(history + [w]) == After(history)[CStr(w.key) := CStr(Written(w))]
  {
    assert (history + [w])[..|history|] == history;
  }

  /** On NUL-free histories the memtable is last-write-wins: looking any key up finds what was last
      written under the part of it before its first NUL. */
  lemma {:induction false} LastWriteWins(history: seq<Write>, key: bytes)
    requires NulFree(history)
    ensures LastWrite(history, CStr(key))
         == if CStr(key) in After(history) then Some(After(history)[CStr(key)]) else None
  {
    hide CStr;
    if history != [] { LastWriteWins(history[..|history| - 1], key); }
  }

  /** Reading back a key just written gives the value exactly if the value has no NUL. */
  lemma ReadYourWrite(history: seq<Write>, key: bytes, value: bytes)
    ensures var m := After(history + [Put(key, value)]);
            CStr(key) in m && (m[CStr(key)] == value <==> 0 !in value)
  {
    AfterOneMore(history, Put(key, value));
  }

  /** Writing under one key disturbs what is read under another exactly if the keys agree up to
      their first NUL and the value differs from what was there. */
  lemma Interference(history: seq<Write>, w: Write, other: bytes)
    ensures var m, m' := After(history), After(history + [w]);
            (CStr(other) in m' <==> CStr(other) in m) &&
            (CStr(other) in m ==> m'[CStr(other)] == m[CStr(other)])
            <==>
            CStr(w.key) != CStr(other) || (CStr(other) in m && m[CStr(other)] == CStr(Written(w)))
  {
    AfterOneMore(history, w);
  }

  /** Either branch of Put and of Delete records the write. */
  lemma PutRecorded(history: seq<Write>, key: bytes, value: bytes)
    ensures var m, m' := After(history), After(history + [Put(key, value)]);
            && (CStr(key) in m ==> Applied(m, Update, CStr(key), CStr(value)) == m')
            && (CStr(key) !in m ==> Applied(m, Add, CStr(key), CStr(value)) == m')
  {
    hide CStr, After;
    AfterOneMore(history, Put(key, value));
  }

  lemma DeleteRecorded(history: seq<Write>, key: bytes)
    ensures var m, m' := After(history), After(history + [Delete(key)]);
            && (CStr(key) in m ==> Applied(m, Deletion, CStr(key), CStr([])) == m')
            && (CStr(key) !in m ==> Applied(m, Add, CStr(key), CStr([])) == m')
  {
    hide After;
    AfterOneMore(history, Delete(key));
  }

  /** The part of `DBImpl` that writes to the memtable. */
  class DBImpl {
    const memTable: MemTable
    ghost var history: seq<Write>

    ghost predicate Valid()
      reads this, memTable.table, memTable.table.nodes
    {
      memTable.Valid() && memTable.Contents() == After(history)
    }

    constructor ()
      ensures Valid() && history == [] && fresh(memTable.table) && fresh(memTable.table.nodes)
    {
      memTable := new MemTable();
      history := [];
    }

    method Put(key: bytes, value: bytes)
      requires Valid()
      modifies this, memTable.table, memTable.table.nodes
      ensures Valid() && history == old(history) + [Write.Put(key, value)]
    {
      hide CStr, Applied, After, SkipList.Valid, SkipList.Contents;
      var present := memTable.Contains(key);
      if present {
        memTable.Insert(Update, key, value);
      } else {
        memTable.Insert(Add, key, value);
      }
      PutRecorded(history, key, value);
      history := history + [Write.Put(key, value)];
    }

    method Delete(key: bytes)
      requires Valid()
      modifies this, memTable.table, memTable.table.nodes
      ensures Valid() && history == old(history) + (if key == [] then [] else [Write.Delete(key)])
    {
      if key == [] {
        return;
      }
      DeleteKey(key);
    }

    /** Delete, past its guard. */
    method DeleteKey(key: bytes)
      requires Valid()
      modifies this, memTable.table, memTable.table.nodes
      ensures Valid() && history == old(history) + [Write.Delete(key)]
    {
      hide CStr, Applied, After, SkipList.Valid, SkipList.Contents;
      var present := memTable.Contains(key);
      if present {
        memTable.Insert(Deletion, key, []);
      } else {
        memTable.Insert(Add, key, []);
      }
      DeleteRecorded(history, key);
      history := history + [Write.Delete(key)];
    }
  }
}
