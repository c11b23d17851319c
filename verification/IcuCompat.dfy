/** Loading and unloading the ICU libraries, whose functions carry a version suffix that has to be found out. */
module IcuCompat {
  import opened Machine

  datatype Dirent = Dirent(isRegular: bool, name: string)

  /** What the system answers during one call: the two libraries, the ICU data directory, and symbol look-ups. */
  datatype System = System(
    uc: Option<nat>, i18n: Option<nat>, directory: Option<seq<Dirent>>, dlsym: (nat, string) -> Option<nat>)

  const SYMBOL_BUFFER := 128

  const UC_FUNCTIONS := {
    "u_austrncpy", "u_getVersion", "u_isspace", "u_strFoldCase", "u_strToUTF8", "u_strtok_r", "utf8_nextCharSafeBody",
    "ubrk_open", "ubrk_close", "ubrk_setText", "ubrk_current", "ubrk_next", "ubrk_previous", "ubrk_first",
    "ubrk_isBoundary", "ubrk_getRuleStatus", "unorm_normalize", "ucnv_fromUChars", "ucnv_toUChars", "ucnv_openCCSID",
    "ucnv_close", "uiter_setUTF8"}

  const I18N_FUNCTIONS := {
    "ucol_strcoll", "ucol_strcollIter", "ucol_getSortKey", "ucol_open", "ucol_setAttribute",
    "ucol_getShortDefinitionString"}

  /** The symbol name, as much of it as the buffer holds before its terminating NUL. */
  function Symbol(name: string, suffix: string): string
    requires |name| < SYMBOL_BUFFER
  {
    var s := name + suffix;
    if |s| < SYMBOL_BUFFER then s else s[..SYMBOL_BUFFER - 1]
  }

  function LoadFunction(sys: System, lib: nat, name: string, suffix: string): Option<nat>
    requires |name| < SYMBOL_BUFFER
  {
    sys.dlsym(lib, Symbol(name, suffix))
  }

  predicate IsDigit(c: char) {
    '0' <= c <= '9'
  }

  /** icudt??l.dat */
  predicate IsIcuData(d: Dirent) {
    d.isRegular && |d.name| == 12 && d.name[..5] == "icudt" && IsDigit(d.name[5]) && IsDigit(d.name[6]) &&
    d.name[7..] == "l.dat"
  }

  function SuffixOf(d: Dirent): string
    requires IsIcuData(d)
  {
    ['_', d.name[5], d.name[6]]
  }

  /** `u_getVersion` is found under this suffix. */
  predicate Resolves(sys: System, lib: nat, suffix: string) {
    sys.dlsym(lib, "u_getVersion" + suffix).Some?
  }

  const DIGITS := "0123456789"

  /** The entry is the data file of a version, and under that version's suffix, as in `_53`, the function resolves. */
  ghost predicate Offers(sys: System, lib: nat, d: Dirent, suffix: string) {
    && |suffix| == 3 && suffix[0] == '_' && suffix[1] in DIGITS && suffix[2] in DIGITS
    && d == Dirent(true, "icudt" + suffix[1..] + "l.dat")
    && Resolves(sys, lib, suffix)
  }

  ghost predicate NoneOffers(sys: System, lib: nat, entries: seq<Dirent>, n: nat) {
    forall i: nat, suffix: string :: i < n && i < |entries| ==> !Offers(sys, lib, entries[i], suffix)
  }

  /**
   The suffix of the first data file for which the version function resolves; else no suffix, if that resolves. When
   the directory cannot be read, plain names are not even tried.
   */
  ghost predicate IsSuffix(sys: System, lib: nat, suffix: Option<string>) {
    match sys.directory
    case None => suffix == None
    case Some(entries) =>
      if NoneOffers(sys, lib, entries, |entries|) then
        suffix == if Resolves(sys, lib, "") then Some("") else None
      else
        suffix.Some? &&
        exists i: nat ::
          i < |entries| && Offers(sys, lib, entries[i], suffix.value) && NoneOffers(sys, lib, entries, i)
  }

  lemma DigitsAre(c: char)
    ensures IsDigit(c) <==> c in DIGITS
  {
    if IsDigit(c) { assert DIGITS[c as int - '0' as int] == c; }
  }

  /** A working entry, as the code recognizes one and makes a suffix of its name, is one that offers that suffix. */
  lemma EntryOffers(sys: System, lib: nat, d: Dirent, suffix: string)
    ensures Offers(sys, lib, d, suffix) <==>
            IsIcuData(d) && suffix == SuffixOf(d) && LoadFunction(sys, lib, "u_getVersion", suffix).Some?
  {
    if Offers(sys, lib, d, suffix) {
      DigitsAre(suffix[1]);
      DigitsAre(suffix[2]);
      assert d.name[..5] == "icudt" && d.name[5] == suffix[1] && d.name[6] == suffix[2] && d.name[7..] == "l.dat";
    }
    if IsIcuData(d) && suffix == SuffixOf(d) {
      DigitsAre(d.name[5]);
      DigitsAre(d.name[6]);
      assert d.name == d.name[..5] + [d.name[5], d.name[6]] + d.name[7..];
      assert suffix[1..] == [d.name[5], d.name[6]];
    }
  }

  lemma SuffixIsUnique(sys: System, lib: nat, a: Option<string>, b: Option<string>)
    requires IsSuffix(sys, lib, a) && IsSuffix(sys, lib, b)
    ensures a == b
  {
    forall d: Dirent, s: string, t: string | Offers(sys, lib, d, s) && Offers(sys, lib, d, t) ensures s == t {
      EntryOffers(sys, lib, d, s);
      EntryOffers(sys, lib, d, t);
    }
    hide Offers;
  }

  method FindIcuSuffix(sys: System, lib: nat) returns (suffix: Option<string>)
    ensures IsSuffix(sys, lib, suffix)
    ensures suffix.Some? ==> Resolves(sys, lib, suffix.value) && |suffix.value| <= 3
  {
    hide Offers, IsIcuData;
    if sys.directory.None? { return None; }
    var entries := sys.directory.value;
    var i := 0;
    while i < |entries|
      invariant i <= |entries| && NoneOffers(sys, lib, entries, i)
    {
      forall suffix: string
        ensures Offers(sys, lib, entries[i], suffix) <==>
                IsIcuData(entries[i]) && suffix == SuffixOf(entries[i]) &&
                LoadFunction(sys, lib, "u_getVersion", suffix).Some?
      {
        EntryOffers(sys, lib, entries[i], suffix);
      }
      if IsIcuData(entries[i]) {
        var buf := SuffixOf(entries[i]);
        if LoadFunction(sys, lib, "u_getVersion", buf).Some? {
          assert Offers(sys, lib, entries[i], buf);
          return Some(buf);
        }
      }
      i := i + 1;
    }
    if LoadFunction(sys, lib, "u_getVersion", "").Some? {
      return Some("");
    }
    return None;
  }

  /** All the names fit the buffer with a suffix. */
  lemma NamesFit()
    ensures forall name :: name in UC_FUNCTIONS + I18N_FUNCTIONS ==> |name| + 3 < SYMBOL_BUFFER == 128
  {
  }

  /** Every slot was looked up, in its own library, under its name and one common suffix. */
  ghost predicate IsTable(table: map<string, Option<nat>>, sys: System, suffix: string) {
    && sys.uc.Some? && sys.i18n.Some?
    && table.Keys == UC_FUNCTIONS + I18N_FUNCTIONS
    && (forall name :: name in UC_FUNCTIONS ==> table[name] == sys.dlsym(sys.uc.value, name + suffix))
    && (forall name :: name in I18N_FUNCTIONS - UC_FUNCTIONS ==>
          table[name] == sys.dlsym(sys.i18n.value, name + suffix))
  }

  /** The libraries are the system's, the suffix is the one to be found, and the table is complete under it. */
  ghost predicate IsLoaded(
    sys: System, suffix: string, uc: Option<nat>, i18n: Option<nat>, table: map<string, Option<nat>>)
  {
    && uc.Some? && uc == sys.uc && i18n == sys.i18n
    && IsSuffix(sys, uc.value, Some(suffix)) && Resolves(sys, uc.value, suffix)
    && IsTable(table, sys, suffix)
  }

  lemma Loads(sys: System, suffix: string, table: map<string, Option<nat>>)
    requires IsTable(table, sys, suffix)
    requires IsSuffix(sys, sys.uc.value, Some(suffix)) && Resolves(sys, sys.uc.value, suffix)
    ensures IsLoaded(sys, suffix, sys.uc, sys.i18n, table) && !IsSuffix(sys, sys.uc.value, None)
  {
    if IsSuffix(sys, sys.uc.value, None) { SuffixIsUnique(sys, sys.uc.value, Some(suffix), None); }
  }

  ghost function Held(uc: Option<nat>, i18n: Option<nat>): multiset<nat> {
    (if uc.Some? then multiset{uc.value} else multiset{}) + (if i18n.Some? then multiset{i18n.value} else multiset{})
  }

  class Icu {
    var uc: Option<nat>
    var i18n: Option<nat>
    var table: map<string, Option<nat>>
    ghost var handles: multiset<nat>  // opened and not yet closed
    ghost var loadedFrom: System  // the system at the time of the last load
    ghost var suffix: string

    /**
     Between calls: both libraries are open or neither is; every library that was opened and is not held has been
     closed; and while they are open, the table is complete, under a suffix for which `u_getVersion` resolves.
     */
    ghost predicate Valid()
      reads this
    {
      && (uc.Some? <==> i18n.Some?)
      && handles == Held(uc, i18n)
      && (uc.Some? ==> IsLoaded(loadedFrom, suffix, uc, i18n, table))
    }

    constructor (ghost sys: System)
      ensures Valid() && uc == None && handles == multiset{}
    {
      uc, i18n, table := None, None, map[];
      handles, loadedFrom, suffix := multiset{}, sys, "";
    }

    method DlOpen(answer: Option<nat>) returns (handle: Option<nat>)
      modifies this`handles
      ensures handle == answer
      ensures handles == old(handles) + if answer.Some? then multiset{answer.value} else multiset{}
    {
      handle := answer;
      if answer.Some? { handles := handles + multiset{answer.value}; }
    }

    /** Only what is open can be closed. */
    method DlClose(handle: nat)
      requires handle in handles
      modifies this`handles
      ensures handles == old(handles) - multiset{handle}
    {
      handles := handles - multiset{handle};
    }

    method LoadFunctions(sys: System, suffix: string)
      requires sys.uc.Some? && sys.i18n.Some? && |suffix| <= 3
      modifies this`table
      ensures IsTable(table, sys, suffix)
    {
      hide UC_FUNCTIONS, I18N_FUNCTIONS;
      NamesFit();
      var fromUc := map name | name in UC_FUNCTIONS :: LoadFunction(sys, sys.uc.value, name, suffix);
      var fromI18n := map name | name in I18N_FUNCTIONS :: LoadFunction(sys, sys.i18n.value, name, suffix);
      table := fromI18n + fromUc;
    }

    /** With both libraries open: finds the suffix and fills the table, or gives up. */
    method Load(sys: System) returns (ok: bool)
      requires uc.Some? && i18n.Some? && uc == sys.uc && i18n == sys.i18n && handles == Held(uc, i18n)
      modifies this`table, this`loadedFrom, this`suffix
      ensures handles == Held(uc, i18n)
      ensures ok ==> loadedFrom == sys && IsLoaded(sys, suffix, uc, i18n, table)
      ensures ok <==> !IsSuffix(sys, sys.uc.value, None)
      ensures !ok ==> unchanged(this)
    {
      hide UC_FUNCTIONS, I18N_FUNCTIONS, IsSuffix, IsTable, IsLoaded, Resolves, Held;
      var found := FindIcuSuffix(sys, uc.value);
      if found.None? { return false; }
      LoadFunctions(sys, found.value);
      loadedFrom, suffix := sys, found.value;
      Loads(sys, found.value, table);
      return true;
    }

    method OpenBoth(sys: System)
      requires uc == None && i18n == None && handles == Held(uc, i18n)
      modifies this`uc, this`i18n, this`handles
      ensures uc == sys.uc && i18n == sys.i18n && handles == Held(uc, i18n)
    {
      uc := DlOpen(sys.uc);
      i18n := DlOpen(sys.i18n);
    }

    method Init(sys: System) returns (rc: int)
      requires Valid()
      modifies this
      ensures Valid()
      ensures rc == 0 <==> uc.Some?
      ensures old(uc).Some? ==> rc == 0 && unchanged(this)
      ensures old(uc).None? ==>
                (rc == 0 <==> sys.uc.Some? && sys.i18n.Some? && !IsSuffix(sys, sys.uc.value, None))
      ensures old(uc).None? && rc == 0 ==> loadedFrom == sys
      ensures rc != 0 ==> rc == -1 && unchanged(`table)
    {
      hide UC_FUNCTIONS, I18N_FUNCTIONS, IsSuffix, IsTable, IsLoaded, Resolves, Held;
      if uc.Some? || i18n.Some? { return 0; }
      OpenBoth(sys);
      if uc.Some? && i18n.Some? {
        var ok := Load(sys);
        if ok { return 0; }
      }
      CloseBoth();
      return -1;
    }

    method Destroy()
      requires Valid()
      modifies this
      ensures Valid() && uc == None && i18n == None && handles == multiset{} && unchanged(`table)
    {
      CloseBoth();
    }

    method CloseBoth()
      requires handles == Held(uc, i18n)
      modifies this`uc, this`i18n, this`handles
      ensures uc == None && i18n == None && handles == Held(uc, i18n) == multiset{}
    {
      if uc.Some? { DlClose(uc.value); }
      if i18n.Some? { DlClose(i18n.value); }
      uc, i18n := None, None;
    }
  }
}
