/** `Iface::Config` (`config.rb`): config files gathered under their type
    tags, and the choice of the one primary file. */
module Configs {
  import opened Arith
  import opened Results
  import opened IpAddresses
  import opened ValueSets
  import Pairs
  import IpText
  import FileNames
  import ConfigFiles

  type ConfigFile = ConfigFiles.ConfigFile

  /** The files seen so far, by the tag of their class, in the order they
      were added. */
  datatype Config = Config(files: map<string, seq<ConfigFile>>)

  /** `Config.new`. */
  const EMPTY: Config := Config(map[])

  /** Every file sits under its own class's tag and has well-formed
      variables, as `add` and `ValueSet` leave them. */
  predicate Valid(c: Config)
  {
    forall t :: t in c.files ==> forall i :: 0 <= i < |c.files[t]| ==>
      && FileNames.Tag(ConfigFiles.KindOf(c.files[t][i])) == t
      && WellFormed(c.files[t][i].vars)
  }

  /** The tag `add` files a config file under: `file.class.file_type_name`. */
  function TagOf(f: ConfigFile): (t: string)
    ensures t == FileNames.Tag(ConfigFiles.KindOf(f))
  {
    var k := ConfigFiles.KindOf(f);
    FileNames.FileTypeNames(k);
    FileNames.FileTypeName(FileNames.ClassName(k)).value
  }

  /** `Config#add`: the file built from the name and content is appended to
      the list of its tag, which is created when new; every other list is
      left as it was. */
  function Add(c: Config, filename: string, content: string): (r: Result<Config>)
    ensures ConfigFiles.Create(filename, content).Err? ==> r == Err(ConfigFiles.Create(filename, content).error)
    ensures r.Ok? <==> ConfigFiles.Create(filename, content).Ok?
    ensures r.Ok? ==> var f := ConfigFiles.Create(filename, content).value; var t := TagOf(f);
      && r.value.files.Keys == c.files.Keys + {t}
      && r.value.files[t] == (if t in c.files then c.files[t] else []) + [f]
      && forall u :: u in c.files && u != t ==> r.value.files[u] == c.files[u]
  {
    match ConfigFiles.Create(filename, content)
    case Err(e) => Err(e)
    case Ok(f) => Ok(Append(c, f))
  }

  /** A file appended to the list of its tag. */
  function Append(c: Config, f: ConfigFile): (r: Config)
    ensures var t := TagOf(f);
      && r.files.Keys == c.files.Keys + {t}
      && r.files[t] == (if t in c.files then c.files[t] else []) + [f]
      && forall u :: u in c.files && u != t ==> r.files[u] == c.files[u]
  {
    var t := TagOf(f);
    var list := if t in c.files then c.files[t] else [];
    Config(c.files[t := list + [f]])
  }

  /** `add` keeps a config valid. */
  lemma AddValid(c: Config, filename: string, content: string)
    requires Valid(c) && Add(c, filename, content).Ok?
    ensures Valid(Add(c, filename, content).value)
  {
    var f := ConfigFiles.Create(filename, content).value;
    assert WellFormed(f.vars) by {
      assert f.vars == Parse(content).value;
    }
    AppendValid(c, f);
  }

  /** Appending a file with well-formed variables under its own tag keeps a
      config valid. */
  lemma AppendValid(c: Config, f: ConfigFile)
    requires Valid(c) && WellFormed(f.vars)
    ensures Valid(Append(c, f))
  {
    var t := TagOf(f);
    var r := Append(c, f);
    forall u | u in r.files
      ensures forall i :: 0 <= i < |r.files[u]| ==>
        FileNames.Tag(ConfigFiles.KindOf(r.files[u][i])) == u && WellFormed(r.files[u][i].vars)
    {
      if u != t {
        assert r.files[u] == c.files[u];
      }
    }
  }

  // ------------------------------------------------------------- primary

  /** `Reserved_IP_Ranges`: 10.0.0.0/8 and 192.168.0.0/16. */
  const RESERVED_IP_RANGES: seq<IpAddress> := [IpAddress(V4, 0x0A00_0000, 8), IpAddress(V4, 0xC0A8_0000, 16)]

  /** `IPAddr#include?`: the address is of the block's family and lies
      among the addresses the block's prefix covers. */
  predicate BlockIncludes(block: IpAddress, a: IpAddress)
    requires block.prefix <= Width(block.family)
  {
    && a.family == block.family
    && block.bits <= a.bits < block.bits + HostSize(block.family, block.prefix)
  }

  /** Whether an address is in one of the reserved blocks. */
  predicate Reserved(a: IpAddress)
  {
    exists i :: 0 <= i < |RESERVED_IP_RANGES| && BlockIncludes(RESERVED_IP_RANGES[i], a)
  }

  /** The block test in octet terms: an IPv4 address `a.b.c.d` is reserved
      exactly when `a` is 10, or `a.b` is 192.168. The third private block
      of section 3 of RFC 1918, 172.16.0.0/12, is not among them. */
  lemma ReservedOctets(o0: nat, o1: nat, o2: nat, o3: nat)
    requires o0 < 256 && o1 < 256 && o2 < 256 && o3 < 256
    ensures Reserved(IpAddress(V4, ValueBE([o0, o1, o2, o3], 256), 32)) <==>
      o0 == 10 || (o0 == 192 && o1 == 168)
  {
    var n := ValueBE([o0, o1, o2, o3], 256);
    assert ValueBE([o0], 256) == o0 by {
      assert [o0][..0] == [];
    }
    assert ValueBE([o0, o1], 256) == o0 * 256 + o1 by {
      assert [o0, o1][..1] == [o0];
    }
    assert ValueBE([o0, o1, o2], 256) == (o0 * 256 + o1) * 256 + o2 by {
      assert [o0, o1, o2][..2] == [o0, o1];
    }
    assert n == ((o0 * 256 + o1) * 256 + o2) * 256 + o3 by {
      assert [o0, o1, o2, o3][..3] == [o0, o1, o2];
    }
    HostSizes();
    var low16 := o2 * 0x100 + o3;
    var low24 := o1 * 0x1_0000 + low16;
    assert n == o0 * 0x100_0000 + low24 && 0 <= low24 < 0x100_0000;
    assert n == (o0 * 0x100 + o1) * 0x1_0000 + low16 && 0 <= low16 < 0x1_0000;
    DivModUnique(n, 0x100_0000, o0, low24);
    DivModUnique(n, 0x1_0000, o0 * 0x100 + o1, low16);
    var a := IpAddress(V4, n, 32);
    assert BlockIncludes(RESERVED_IP_RANGES[0], a) <==> n / 0x100_0000 == 10;
    assert BlockIncludes(RESERVED_IP_RANGES[1], a) <==> n / 0x1_0000 == 0xC0A8;
  }

  lemma HostSizes()
    ensures HostSize(V4, 8) == 0x100_0000 && HostSize(V4, 16) == 0x1_0000
  {
    PowerTwoLiterals();
    PowerAdd(2, 8, 8);
    PowerAdd(2, 16, 8);
  }

  /** Whether `primary` keeps a primary file: a file that is not static
      always, a static one without IPADDR never, and otherwise when its
      address is outside the reserved blocks. `IPAddr.new` may raise. */
  function Eligible(f: ConfigFile): (r: Result<bool>)
    requires f.PrimaryFile?
    ensures !ConfigFiles.Static(f) ==> r == Ok(true)
    ensures ConfigFiles.Static(f) && !HasKey(f.vars, ConfigFiles.KEY_IPADDR) ==> r == Ok(false)
  {
    if !ConfigFiles.Static(f) then Ok(true)
    else
      match ConfigFiles.IpAddressOf(f)
      case None => Ok(false)
      case Some(t) =>
        var a :- Create(t);
        Ok(!Reserved(a))
  }

  /** A static primary file whose variables are well formed never makes
      `IPAddr.new` raise: IPADDR is always stored as an IPv4 number, and the
      file is eligible exactly when that number is outside the reserved
      blocks. */
  lemma EligibleStored(f: ConfigFile)
    requires f.PrimaryFile? && WellFormed(f.vars) && ConfigFiles.Static(f)
    requires HasKey(f.vars, ConfigFiles.KEY_IPADDR)
    ensures Lookup(f.vars, ConfigFiles.KEY_IPADDR).value.V4Primary?
    ensures var n := Lookup(f.vars, ConfigFiles.KEY_IPADDR).value.num;
      Eligible(f) == Ok(!Reserved(IpAddress(V4, n % TWO32, 32)))
  {
    ConfigFiles.UpcaseKeys();
    var p := Lookup(f.vars, ConfigFiles.KEY_IPADDR).value;
    assert Pairs.Name(p) == Pairs.IPADDR;
    assert !p.Generic?;
  }

  /** Eligibility of a stored address in dotted terms: a static primary
      file at `a.b.c.d` is kept unless `a` is 10 or `a.b` is 192.168, so
      172.16.0.0/12 addresses are kept. */
  lemma EligibleOctets(f: ConfigFile)
    requires f.PrimaryFile? && WellFormed(f.vars) && ConfigFiles.Static(f)
    requires HasKey(f.vars, ConfigFiles.KEY_IPADDR)
    ensures Lookup(f.vars, ConfigFiles.KEY_IPADDR).value.V4Primary?
    ensures var os := IpText.Octets(Lookup(f.vars, ConfigFiles.KEY_IPADDR).value.num % TWO32);
      Eligible(f) == Ok(!(os[0] == 10 || (os[0] == 192 && os[1] == 168)))
  {
    EligibleStored(f);
    ReservedNum(Lookup(f.vars, ConfigFiles.KEY_IPADDR).value.num % TWO32);
  }

  /** `ReservedOctets` for the octets of a number. */
  lemma ReservedNum(m: nat)
    requires m < TWO32
    ensures var os := IpText.Octets(m);
      Reserved(IpAddress(V4, m, 32)) <==> os[0] == 10 || (os[0] == 192 && os[1] == 168)
  {
    var os := IpText.Octets(m);
    assert [os[0], os[1], os[2], os[3]] == os;
    ReservedOctets(os[0], os[1], os[2], os[3]);
  }

  /** The eligible files of a list, in order; the first error raised by an
      eligibility test aborts the selection. */
  function Select(fs: seq<ConfigFile>): (r: Result<seq<ConfigFile>>)
    requires forall i :: 0 <= i < |fs| ==> fs[i].PrimaryFile?
    ensures r.Ok? ==> |r.value| <= |fs|
  {
    if |fs| == 0 then Ok([])
    else
      var keep :- Eligible(fs[0]);
      var rest :- Select(fs[1..]);
      Ok(if keep then [fs[0]] + rest else rest)
  }

  /** The selection succeeds exactly when no eligibility test raises. */
  lemma {:induction false} SelectOk(fs: seq<ConfigFile>)
    requires forall i :: 0 <= i < |fs| ==> fs[i].PrimaryFile?
    ensures Select(fs).Ok? <==> forall i :: 0 <= i < |fs| ==> Eligible(fs[i]).Ok?
  {
    if |fs| > 0 {
      var tail := fs[1..];
      assert forall i :: 1 <= i < |fs| ==> fs[i] == tail[i - 1];
      SelectOk(tail);
    }
  }

  /** A successful selection holds exactly the files found eligible. */
  lemma {:induction false} SelectMembers(fs: seq<ConfigFile>)
    requires forall i :: 0 <= i < |fs| ==> fs[i].PrimaryFile?
    requires Select(fs).Ok?
    ensures forall g :: g in Select(fs).value ==> g in fs && Eligible(g) == Ok(true)
    ensures forall i :: 0 <= i < |fs| && Eligible(fs[i]) == Ok(true) ==> fs[i] in Select(fs).value
  {
    if |fs| > 0 {
      var tail := fs[1..];
      assert forall i :: 1 <= i < |fs| ==> fs[i] == tail[i - 1];
      assert Select(tail).Ok?;
      SelectMembers(tail);
    }
  }

  /** `Config#primary`: the one eligible primary file, nil when there is
      none, a `RuntimeError` when there are several, and a `NoMethodError`
      when no primary file was ever added. */
  function Primary(c: Config): (r: Result<Option<ConfigFile>>)
    requires Valid(c)
    ensures FileNames.Tag(FileNames.Primary) !in c.files ==> r == Err(NoMethod("select"))
    ensures FileNames.Tag(FileNames.Primary) in c.files ==>
      var sel := Select(c.files[FileNames.Tag(FileNames.Primary)]);
      && (sel.Err? ==> r == Err(sel.error))
      && (sel.Ok? && |sel.value| == 0 ==> r == Ok(None))
      && (sel.Ok? && |sel.value| == 1 ==> r == Ok(Some(sel.value[0])))
      && (sel.Ok? && |sel.value| >= 2 ==> r == Err(AmbiguousPrimary(|sel.value|)))
  {
    var t := FileNames.Tag(FileNames.Primary);
    if t !in c.files then Err(NoMethod("select"))
    else
      var list := c.files[t];
      assert forall i :: 0 <= i < |list| ==> list[i].PrimaryFile? by {
        forall i | 0 <= i < |list|
          ensures list[i].PrimaryFile?
        {
          FileNames.TagInjective(ConfigFiles.KindOf(list[i]), FileNames.Primary);
        }
      }
      var sel :- Select(list);
      if |sel| == 0 then Ok(None)
      else if |sel| == 1 then Ok(Some(sel[0]))
      else Err(AmbiguousPrimary(|sel|))
  }

  /** In a valid config, `primary` raises only for a missing primary list
      or for several eligible files: the address tests never raise. */
  lemma PrimaryOutcome(c: Config)
    requires Valid(c) && FileNames.Tag(FileNames.Primary) in c.files
    ensures var list := c.files[FileNames.Tag(FileNames.Primary)];
      && Select(list).Ok?
      && (Primary(c).Err? <==> |Select(list).value| >= 2)
      && (Primary(c).Ok? && Primary(c).value.Some? ==>
            Primary(c).value.value in list && Eligible(Primary(c).value.value) == Ok(true))
  {
    var list := c.files[FileNames.Tag(FileNames.Primary)];
    forall i | 0 <= i < |list|
      ensures list[i].PrimaryFile? && Eligible(list[i]).Ok?
    {
      FileNames.TagInjective(ConfigFiles.KindOf(list[i]), FileNames.Primary);
      if ConfigFiles.Static(list[i]) && HasKey(list[i].vars, ConfigFiles.KEY_IPADDR) {
        EligibleStored(list[i]);
      }
    }
    SelectOk(list);
    SelectMembers(list);
  }
}
