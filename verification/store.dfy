/** The three tables the handlers read (`tld`, `reg`, `price`) as sequences
    in the database's scan order, and the lookups by key that the handlers'
    joins and `findFirst` calls perform. Prices are integer cents and
    timestamps integer instants. */
module Store {
  import opened Wrappers
  import opened Seqs

  /** A domain extension; `name` is stored with its leading dot (".com"). */
  datatype Tld = Tld(id: int, name: string, createdAt: int, updatedAt: int)

  /** A registrar. */
  datatype Reg = Reg(id: int, name: string, createdAt: int)

  /** One quotation of a registrar's prices for an extension. */
  datatype PriceRow = PriceRow(
    id: int, regId: int, tldId: int,
    regPrice: int, renewPrice: int, transferPrice: int,
    createdAt: int)

  datatype Db = Db(tlds: seq<Tld>, regs: seq<Reg>, prices: seq<PriceRow>)

  function TldWithId(id: int): Tld -> bool {
    (t: Tld) => t.id == id
  }

  function TldNamed(name: string): Tld -> bool {
    (t: Tld) => t.name == name
  }

  function RegWithId(id: int): Reg -> bool {
    (r: Reg) => r.id == id
  }

  /** The extension with primary key `id` (`JOIN tld t ON p.tld_id = t.id`). */
  function FindTld(tlds: seq<Tld>, id: int): (r: Option<Tld>)
    ensures r.Some? ==> r.value in tlds && r.value.id == id
    ensures r.None? ==> forall i :: 0 <= i < |tlds| ==> tlds[i].id != id
  {
    First(TldWithId(id), tlds)
  }

  /** The first extension whose name is exactly `name`
      (`prisma.tld.findFirst({ where: { name } })`). */
  function FindTldByName(tlds: seq<Tld>, name: string): (r: Option<Tld>)
    ensures r.Some? ==> r.value in tlds && r.value.name == name
    ensures r.None? ==> forall i :: 0 <= i < |tlds| ==> tlds[i].name != name
  {
    First(TldNamed(name), tlds)
  }

  /** The registrar with primary key `id` (`JOIN reg r ON p.reg_id = r.id`). */
  function FindReg(regs: seq<Reg>, id: int): (r: Option<Reg>)
    ensures r.Some? ==> r.value in regs && r.value.id == id
    ensures r.None? ==> forall i :: 0 <= i < |regs| ==> regs[i].id != id
  {
    First(RegWithId(id), regs)
  }

  /** `reg.id` is a primary key. */
  predicate UniqueRegIds(regs: seq<Reg>) {
    forall i, j :: 0 <= i < j < |regs| ==> regs[i].id != regs[j].id
  }

  /** With unique keys, the registrar found for `id` is the one holding it. */
  lemma FindRegUnique(regs: seq<Reg>, r: Reg)
    requires UniqueRegIds(regs) && r in regs
    ensures FindReg(regs, r.id) == Some(r)
  {
    var i :| 0 <= i < |regs| && regs[i] == r;
    var found := FindReg(regs, r.id);
    var j :| 0 <= j < |regs| && regs[j] == found.value;
    assert i == j;
  }
}
