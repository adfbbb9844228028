/** Owner keys: the uid, app id, class, direction and kind of an endpoint, joined by NUL. The key
    determines all five, whatever characters the app id contains. */
module OwnerKeys {
  import opened Words

  datatype TrafficClass = Normal | Safety
  datatype Direction = Encrypt | Decrypt
  datatype Proto = Tcp | Udp | Uds | Shm

  datatype Slot = Slot(uid: u32, app: string, cls: TrafficClass, dir: Direction, kind: Proto)

  const NUL: char := '\0'

  function ClassName(c: TrafficClass): string { match c case Normal => "normal" case Safety => "safety" }

  function DirectionName(d: Direction): string { match d case Encrypt => "encrypt" case Decrypt => "decrypt" }

  function ProtoName(p: Proto): string { match p case Tcp => "tcp" case Udp => "udp" case Uds => "uds" case Shm => "shm" }

  function Digit(d: nat): char
    requires d < 10
  {
    '0' + d as char
  }

  function Decimal(n: nat): (s: string)
    ensures |s| > 0 && NUL !in s
  {
    if n < 10 then [Digit(n)] else Decimal(n / 10) + [Digit(n % 10)]
  }

  /** The number a decimal string spells. */
  function Value(s: string): int {
    if s == [] then 0 else Value(s[..|s| - 1]) * 10 + (s[|s| - 1] as int - '0' as int)
  }

  lemma {:induction false} DecimalValue(n: nat)
    ensures Value(Decimal(n)) == n
  {
    if n < 10 {
      assert [Digit(n)][..0] == [];
    } else {
      DecimalValue(n / 10);
      var s := Decimal(n);
      assert s[..|s| - 1] == Decimal(n / 10);
    }
  }

  function TemplateKey(s: Slot): string {
    s.app + [NUL] + ClassName(s.cls) + [NUL] + DirectionName(s.dir) + [NUL] + ProtoName(s.kind)
  }

  function OwnerKey(s: Slot): string {
    Decimal(s.uid) + [NUL] + TemplateKey(s)
  }

  /** A string splits at its first NUL in one way only. */
  lemma SplitFirst(a: string, x: string, b: string, y: string)
    requires NUL !in a && NUL !in b && a + [NUL] + x == b + [NUL] + y
    ensures a == b && x == y
  {
    var s, t := a + [NUL] + x, b + [NUL] + y;
    assert s[|a|] == NUL && t[|b|] == NUL;
    assert forall i :: 0 <= i < |a| ==> s[i] != NUL;
    assert forall i :: 0 <= i < |b| ==> t[i] != NUL;
    assert |a| == |b|;
    assert s[..|a|] == a && t[..|b|] == b;
    assert s[|a| + 1..] == x && t[|b| + 1..] == y;
  }

  /** A string splits at its last NUL in one way only. */
  lemma SplitLast(x: string, a: string, y: string, b: string)
    requires NUL !in a && NUL !in b && x + [NUL] + a == y + [NUL] + b
    ensures a == b && x == y
  {
    var s, t := x + [NUL] + a, y + [NUL] + b;
    assert s[|x|] == NUL && t[|y|] == NUL;
    assert forall i :: |x| < i < |s| ==> s[i] != NUL;
    assert forall i :: |y| < i < |t| ==> t[i] != NUL;
    assert |x| == |y|;
    assert s[..|x|] == x && t[..|y|] == y;
    assert s[|x| + 1..] == a && t[|y| + 1..] == b;
  }

  lemma NamesDistinct(s: Slot, t: Slot)
    ensures NUL !in ClassName(s.cls) && NUL !in DirectionName(s.dir) && NUL !in ProtoName(s.kind)
    ensures ClassName(s.cls) == ClassName(t.cls) ==> s.cls == t.cls
    ensures DirectionName(s.dir) == DirectionName(t.dir) ==> s.dir == t.dir
    ensures ProtoName(s.kind) == ProtoName(t.kind) ==> s.kind == t.kind
  {
    assert "normal"[0] == 'n' && "safety"[0] == 's';
    assert "encrypt"[0] == 'e' && "decrypt"[0] == 'd';
    assert "tcp"[0] == 't' && "shm"[0] == 's';
    assert "udp"[0] == "uds"[0] == 'u' && "udp"[2] == 'p' && "uds"[2] == 's';
  }

  lemma TemplateKeyInjective(s: Slot, t: Slot)
    requires TemplateKey(s) == TemplateKey(t)
    ensures s.app == t.app && s.cls == t.cls && s.dir == t.dir && s.kind == t.kind
  {
    hide ClassName, DirectionName, ProtoName;
    NamesDistinct(s, t);
    NamesDistinct(t, s);
    var a, b := s.app + [NUL] + ClassName(s.cls), t.app + [NUL] + ClassName(t.cls);
    SplitLast(a + [NUL] + DirectionName(s.dir), ProtoName(s.kind), b + [NUL] + DirectionName(t.dir), ProtoName(t.kind));
    SplitLast(a, DirectionName(s.dir), b, DirectionName(t.dir));
    SplitLast(s.app, ClassName(s.cls), t.app, ClassName(t.cls));
  }

  /** Two endpoints share an owner key only if they agree on everything. */
  lemma OwnerKeyInjective(s: Slot, t: Slot)
    requires OwnerKey(s) == OwnerKey(t)
    ensures s == t
  {
    hide TemplateKey, Decimal;
    SplitFirst(Decimal(s.uid), TemplateKey(s), Decimal(t.uid), TemplateKey(t));
    DecimalValue(s.uid);
    DecimalValue(t.uid);
    TemplateKeyInjective(s, t);
  }
}
