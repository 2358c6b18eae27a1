/**
 * The pure part of the room session manager: the constants of the game,
 * the array searches the server uses (`some`, `find`, `findIndex`), the
 * room invariant, and the value-level transitions (new room, join, leave
 * with host failover, deal, reveal, stale-room sweep) that the store in
 * module GameLogic applies to its map of rooms.
 */
module GameRules {
  import opened Wrappers
  import opened Types

  const MaxJogadores: int := 15
  const MinJogadores: nat := 3
  /** Rooms older than 24 hours, in milliseconds, are swept. */
  const TempoLimite: int := 24 * 60 * 60 * 1000
  /** The card of a player before the first deal. */
  const SemCarta: string := ""
  /** The card of the spy. */
  const CartaEspiao: string := "espiao"

  // ---------------------------------------------------------------------
  // Case-insensitive names

  /** Lower-casing of one character, for the ASCII letters. */
  function LowerChar(c: char): char
  {
    if 'A' <= c <= 'Z' then (c as int + 32) as char else c
  }

  /** Lower-casing of a name, character by character. */
  function Lower(s: string): (r: string)
    ensures |r| == |s|
    ensures forall i :: 0 <= i < |r| ==> !('A' <= r[i] <= 'Z')
    ensures forall i :: 0 <= i < |r| && !('A' <= s[i] <= 'Z') ==> r[i] == s[i]
    ensures forall i :: 0 <= i < |r| && 'A' <= s[i] <= 'Z' ==> r[i] as int == s[i] as int + 32
  {
    seq(|s|, i requires 0 <= i < |s| => LowerChar(s[i]))
  }

  /** Two names the server treats as the same one. */
  predicate MesmoNome(a: string, b: string)
    ensures a == b ==> MesmoNome(a, b)
    ensures MesmoNome(a, b) <==> |a| == |b| && forall i :: 0 <= i < |a| ==> LowerChar(a[i]) == LowerChar(b[i])
  {
    Lower(a) == Lower(b)
  }

  /** Some player's name is the given one, ignoring case. */
  function NomeExiste(ps: seq<Jogador>, nome: string): (r: bool)
    ensures r <==> exists i :: 0 <= i < |ps| && MesmoNome(ps[i].nome, nome)
  {
    if ps == [] then false
    else if MesmoNome(ps[0].nome, nome) then true
    else
      var rest := NomeExiste(ps[1..], nome);
      assert forall i :: 1 <= i < |ps| ==> ps[i] == ps[1..][i - 1];
      rest
  }

  /** No two players of the sequence have the same name, ignoring case. */
  predicate NomesDistintos(ps: seq<Jogador>)
  {
    forall i, j :: 0 <= i < j < |ps| ==> !MesmoNome(ps[i].nome, ps[j].nome)
  }

  // ---------------------------------------------------------------------
  // Searches by connection

  /** The index of the first player bound to the connection, None when there is none. */
  function IndiceDoSocket(ps: seq<Jogador>, socketId: string): (r: Option<nat>)
    ensures r.Some? ==> r.value < |ps| && ps[r.value].socketId == socketId
    ensures r.Some? ==> forall j :: 0 <= j < r.value ==> ps[j].socketId != socketId
    ensures r.None? <==> forall j :: 0 <= j < |ps| ==> ps[j].socketId != socketId
  {
    if ps == [] then None
    else if ps[0].socketId == socketId then Some(0)
    else
      match IndiceDoSocket(ps[1..], socketId)
      case None =>
        assert forall j :: 1 <= j < |ps| ==> ps[j] == ps[1..][j - 1];
        None
      case Some(i) =>
        assert forall j :: 1 <= j <= i + 1 ==> ps[j] == ps[1..][j - 1];
        Some(i + 1)
  }

  /** The first player that is bound to the connection and is host. */
  function HostComSocket(ps: seq<Jogador>, socketId: string): (r: Option<Jogador>)
    ensures r.Some? ==> r.value in ps && r.value.socketId == socketId && r.value.isHost
    ensures r.None? <==> forall j :: 0 <= j < |ps| ==> !(ps[j].socketId == socketId && ps[j].isHost)
  {
    if ps == [] then None
    else if ps[0].socketId == socketId && ps[0].isHost then Some(ps[0])
    else
      var rest := HostComSocket(ps[1..], socketId);
      assert forall j :: 1 <= j < |ps| ==> ps[j] == ps[1..][j - 1];
      rest
  }

  /** The socket occurs at most once among the players. */
  predicate SocketNoMaximoUmaVez(ps: seq<Jogador>, socketId: string)
  {
    forall i, j :: 0 <= i < j < |ps| && ps[i].socketId == socketId ==> ps[j].socketId != socketId
  }

  // ---------------------------------------------------------------------
  // Counting hosts and spies

  predicate EhHost(p: Jogador) { p.isHost }

  predicate EhEspiao(p: Jogador) { p.carta == CartaEspiao }

  /** The number of players that satisfy `f`. */
  function Conta(ps: seq<Jogador>, f: Jogador -> bool): nat
  {
    if ps == [] then 0 else (if f(ps[0]) then 1 else 0) + Conta(ps[1..], f)
  }

  lemma {:induction false} ContaConcat(a: seq<Jogador>, b: seq<Jogador>, f: Jogador -> bool)
    ensures Conta(a + b, f) == Conta(a, f) + Conta(b, f)
  {
    if a == [] {
      assert a + b == b;
    } else {
      assert (a + b)[1..] == a[1..] + b;
      ContaConcat(a[1..], b, f);
    }
  }

  /** Removing the player at `i` lowers the count by one exactly when that player counted. */
  lemma {:induction false} ContaRemove(ps: seq<Jogador>, i: nat, f: Jogador -> bool)
    requires i < |ps|
    ensures Conta(ps, f) == Conta(Remove(ps, i), f) + (if f(ps[i]) then 1 else 0)
  {
    assert Remove(ps, i) == ps[..i] + ps[i + 1..];
    assert Conta([ps[i]], f) == (if f(ps[i]) then 1 else 0) by {
      assert [ps[i]][1..] == [];
    }
    assert ps == ps[..i] + ([ps[i]] + ps[i + 1..]);
    ContaConcat(ps[..i], [ps[i]] + ps[i + 1..], f);
    ContaConcat([ps[i]], ps[i + 1..], f);
    ContaConcat(ps[..i], ps[i + 1..], f);
  }

  /** No player satisfies `f`: the count is zero. */
  lemma {:induction false} ContaNenhum(ps: seq<Jogador>, f: Jogador -> bool)
    requires forall i :: 0 <= i < |ps| ==> !f(ps[i])
    ensures Conta(ps, f) == 0
  {
    if ps != [] {
      assert forall i :: 0 <= i < |ps| - 1 ==> ps[1..][i] == ps[i + 1];
      ContaNenhum(ps[1..], f);
    }
  }

  /** Exactly the player at `k` satisfies `f`: the count is one. */
  lemma {:induction false} ContaSoUm(ps: seq<Jogador>, k: nat, f: Jogador -> bool)
    requires k < |ps| && f(ps[k])
    requires forall i :: 0 <= i < |ps| && i != k ==> !f(ps[i])
    ensures Conta(ps, f) == 1
  {
    assert forall i :: 0 <= i < |ps| - 1 ==> ps[1..][i] == ps[i + 1];
    if k == 0 {
      ContaNenhum(ps[1..], f);
    } else {
      ContaSoUm(ps[1..], k - 1, f);
    }
  }

  /** Two sequences that agree on `f` player by player have the same count. */
  lemma {:induction false} ContaIgual(ps: seq<Jogador>, qs: seq<Jogador>, f: Jogador -> bool)
    requires |ps| == |qs|
    requires forall i :: 0 <= i < |ps| ==> f(ps[i]) == f(qs[i])
    ensures Conta(ps, f) == Conta(qs, f)
  {
    if ps != [] {
      assert forall i :: 0 <= i < |ps| - 1 ==> ps[1..][i] == ps[i + 1] && qs[1..][i] == qs[i + 1];
      ContaIgual(ps[1..], qs[1..], f);
    }
  }

  // ---------------------------------------------------------------------
  // The room invariant

  /**
   * What every stored room satisfies: at most 15 and at least one player,
   * exactly one host, names distinct ignoring case; no cards before the
   * first deal; during a round, every card is the spy's or the location's,
   * and at most one spy card, held by the player whose id is the recorded spy.
   */
  predicate SalaValida(s: Sala)
  {
    && s.maxJogadores == MaxJogadores
    && 1 <= |s.jogadores| <= s.maxJogadores
    && Conta(s.jogadores, EhHost) == 1
    && NomesDistintos(s.jogadores)
    && (s.status == Aguardando ==>
          && s.local == "" && s.espiao == ""
          && forall i :: 0 <= i < |s.jogadores| ==> s.jogadores[i].carta == SemCarta)
    && (s.status == EmJogo ==>
          && (forall i :: 0 <= i < |s.jogadores| ==>
                s.jogadores[i].carta == CartaEspiao || s.jogadores[i].carta == s.local)
          && (s.local != CartaEspiao ==> Conta(s.jogadores, EhEspiao) <= 1)
          && (s.local != CartaEspiao ==> forall i :: 0 <= i < |s.jogadores| && EhEspiao(s.jogadores[i]) ==>
                s.jogadores[i].id == s.espiao))
  }

  /** Every room is valid and is stored under its own code. */
  predicate SalasValidas(m: map<string, Sala>)
  {
    forall c :: c in m ==> m[c].codigo == c && SalaValida(m[c])
  }

  /** What a deal leaves unchanged in a player. */
  predicate MesmaPessoa(p: Jogador, q: Jogador)
  {
    p.id == q.id && p.nome == q.nome && p.isHost == q.isHost && p.socketId == q.socketId
  }

  // ---------------------------------------------------------------------
  // Creating a room and joining it

  /** A fresh player, as `criarSala` and `entrarSala` build one. */
  function NovoJogador(id: string, nome: string, socketId: string, isHost: bool): (p: Jogador)
    ensures p.carta == SemCarta && !p.cartaRevelada
    ensures p.id == id && p.nome == nome && p.socketId == socketId && p.isHost == isHost
  {
    Jogador(id, nome, SemCarta, false, isHost, socketId)
  }

  /** The room `criarSala` builds: its host alone, waiting, capacity 15. */
  function NovaSala(codigo: string, hostNome: string, hostSocketId: string, id: string, agora: int): (s: Sala)
    ensures SalaValida(s) && s.codigo == codigo
    ensures s.jogadores == [NovoJogador(id, hostNome, hostSocketId, true)]
    ensures s.status == Aguardando && s.maxJogadores == 15 && s.criadaEm == agora
  {
    var s := Sala(codigo, [NovoJogador(id, hostNome, hostSocketId, true)], "", "", Aguardando, MaxJogadores, agora);
    assert Conta(s.jogadores, EhHost) == 1 by { ContaSoUm(s.jogadores, 0, EhHost); }
    s
  }

  /** Why `entrarSala` turns a join into an existing room down, if it does. */
  predicate EntradaRecusada(s: Sala, nome: string)
    ensures EntradaRecusada(s, nome) <==>
      || s.status != Aguardando
      || |s.jogadores| >= s.maxJogadores
      || exists i :: 0 <= i < |s.jogadores| && Lower(s.jogadores[i].nome) == Lower(nome)
  {
    s.status != Aguardando || |s.jogadores| >= s.maxJogadores || NomeExiste(s.jogadores, nome)
  }

  /** `sala.jogadores.push(p)` */
  function ComJogador(s: Sala, p: Jogador): (r: Sala)
    ensures |r.jogadores| == |s.jogadores| + 1
    ensures r.jogadores[..|s.jogadores|] == s.jogadores && r.jogadores[|s.jogadores|] == p
    ensures r.(jogadores := s.jogadores) == s
  {
    s.(jogadores := s.jogadores + [p])
  }

  /**
   * A join that passed the guards of `entrarSala` keeps the room valid,
   * with one more player.
   */
  lemma EntradaPreserva(s: Sala, id: string, nome: string, socketId: string)
    requires SalaValida(s) && !EntradaRecusada(s, nome)
    ensures SalaValida(ComJogador(s, NovoJogador(id, nome, socketId, false)))
    ensures |ComJogador(s, NovoJogador(id, nome, socketId, false)).jogadores| <= MaxJogadores
  {
    var p := NovoJogador(id, nome, socketId, false);
    var r := ComJogador(s, p);
    ContaConcat(s.jogadores, [p], EhHost);
    assert Conta([p], EhHost) == 0 by { ContaNenhum([p], EhHost); }
    forall i, j | 0 <= i < j < |r.jogadores|
      ensures !MesmoNome(r.jogadores[i].nome, r.jogadores[j].nome)
    {
      if j == |s.jogadores| {
        assert r.jogadores[i] == s.jogadores[i];
      } else {
        assert r.jogadores[i] == s.jogadores[i] && r.jogadores[j] == s.jogadores[j];
      }
    }
  }

  // ---------------------------------------------------------------------
  // Leaving, with host failover

  /** The players without the one at `i`, the rest in their order. */
  function Remove(ps: seq<Jogador>, i: nat): (r: seq<Jogador>)
    requires i < |ps|
    ensures |r| == |ps| - 1
    ensures forall j :: 0 <= j < i ==> r[j] == ps[j]
    ensures forall j :: i <= j < |r| ==> r[j] == ps[j + 1]
  {
    ps[..i] + ps[i + 1..]
  }

  /**
   * The players left after the one at `i` leaves a room of at least two:
   * the others in their order, and when the leaver was host, the first of
   * them made host.
   */
  function AposSaida(ps: seq<Jogador>, i: nat): (r: seq<Jogador>)
    requires i < |ps| && |ps| >= 2
    ensures |r| == |ps| - 1
    ensures r[0].isHost <==> ps[i].isHost || ps[if 0 < i then 0 else 1].isHost
  {
    var rest := Remove(ps, i);
    if ps[i].isHost then rest[0 := rest[0].(isHost := true)] else rest
  }

  /**
   * The other players keep their order and everything but the host flag of
   * the new first player, who is host afterwards when the leaver was.
   */
  lemma AposSaidaOrdem(ps: seq<Jogador>, i: nat)
    requires i < |ps| && |ps| >= 2
    ensures |AposSaida(ps, i)| == |ps| - 1
    ensures forall j :: 0 <= j < |ps| - 1 ==>
      AposSaida(ps, i)[j].(isHost := ps[if j < i then j else j + 1].isHost) == ps[if j < i then j else j + 1]
    ensures forall j :: 1 <= j < |ps| - 1 ==> AposSaida(ps, i)[j] == ps[if j < i then j else j + 1]
    ensures ps[i].isHost ==> AposSaida(ps, i)[0].isHost
    ensures !ps[i].isHost ==> AposSaida(ps, i)[0] == ps[if 0 < i then 0 else 1]
  {
  }

  /** Leaving keeps exactly one host among the players left. */
  lemma SaidaUmHost(ps: seq<Jogador>, i: nat)
    requires i < |ps| && |ps| >= 2 && Conta(ps, EhHost) == 1
    ensures Conta(AposSaida(ps, i), EhHost) == 1
  {
    var rest := Remove(ps, i);
    var r := AposSaida(ps, i);
    ContaRemove(ps, i, EhHost);
    if ps[i].isHost {
      assert r[1..] == rest[1..];
      assert Conta(rest, EhHost) == Conta(rest[1..], EhHost) + (if rest[0].isHost then 1 else 0);
      assert Conta(r, EhHost) == Conta(r[1..], EhHost) + 1;
    } else {
      assert r == rest;
    }
  }

  /** Leaving keeps the names of the players left distinct. */
  lemma SaidaNomes(ps: seq<Jogador>, i: nat)
    requires i < |ps| && |ps| >= 2 && NomesDistintos(ps)
    ensures NomesDistintos(AposSaida(ps, i))
  {
  }

  /** Leaving does not add a spy card. */
  lemma SaidaEspioes(ps: seq<Jogador>, i: nat)
    requires i < |ps| && |ps| >= 2
    ensures Conta(AposSaida(ps, i), EhEspiao) <= Conta(ps, EhEspiao)
  {
    ContaRemove(ps, i, EhEspiao);
    ContaIgual(Remove(ps, i), AposSaida(ps, i), EhEspiao);
  }

  /**
   * Leaving keeps a room of at least two valid: in particular exactly one
   * host is left, whether or not the leaver was the host.
   */
  lemma SaidaPreserva(s: Sala, i: nat)
    requires SalaValida(s) && i < |s.jogadores| && |s.jogadores| >= 2
    ensures SalaValida(s.(jogadores := AposSaida(s.jogadores, i)))
  {
    var ps := s.jogadores;
    var r := AposSaida(ps, i);
    SaidaUmHost(ps, i);
    SaidaNomes(ps, i);
    SaidaEspioes(ps, i);
    forall j | 0 <= j < |r|
      ensures r[j].carta == ps[if j < i then j else j + 1].carta
      ensures r[j].id == ps[if j < i then j else j + 1].id
    {
    }
    var t := s.(jogadores := r);
    assert t.status == Aguardando ==> forall j :: 0 <= j < |r| ==> r[j].carta == SemCarta;
    assert t.status == EmJogo ==> forall j :: 0 <= j < |r| ==> r[j].carta == CartaEspiao || r[j].carta == s.local;
    assert t.status == EmJogo && s.local != CartaEspiao ==>
      forall j :: 0 <= j < |r| && EhEspiao(r[j]) ==> r[j].id == s.espiao;
  }

  /**
   * When the spy of a round leaves, the round goes on with no spy card
   * among the players left.
   */
  lemma SaidaDoEspiao(s: Sala, k: nat, local: string)
    requires 2 <= |s.jogadores| && k < |s.jogadores| && local != CartaEspiao
    ensures Rodada(s, k, local).status == EmJogo
    ensures Conta(AposSaida(Rodada(s, k, local).jogadores, k), EhEspiao) == 0
  {
    var ps := Rodada(s, k, local).jogadores;
    var r := AposSaida(ps, k);
    forall j | 0 <= j < |r| ensures !EhEspiao(r[j]) {
      assert r[j].carta == ps[if j < k then j else j + 1].carta;
    }
    ContaNenhum(r, EhEspiao);
  }

  /**
   * A second leave with the same connection finds nobody, provided the
   * connection was in the room once only.
   */
  lemma SaidaIdempotente(ps: seq<Jogador>, socketId: string, i: nat)
    requires |ps| >= 2 && IndiceDoSocket(ps, socketId) == Some(i)
    requires SocketNoMaximoUmaVez(ps, socketId)
    ensures IndiceDoSocket(AposSaida(ps, i), socketId).None?
  {
  }

  /**
   * `entrarSala` does not turn away a connection that is already in the
   * room, so a room can hold the same connection twice; a leave then
   * removes only the first of the two, and a second leave removes the other.
   */
  lemma SaidaComSocketRepetido()
    ensures var ps := [NovoJogador("a", "Ana", "s1", true), NovoJogador("b", "Bia", "s1", false),
                       NovoJogador("c", "Caio", "s2", false)];
            && IndiceDoSocket(ps, "s1") == Some(0)
            && IndiceDoSocket(AposSaida(ps, 0), "s1") == Some(0)
  {
  }

  // ---------------------------------------------------------------------
  // Dealing a round

  /** Floor(rnd * n), the index drawn from a random number `rnd` in [0, 1). */
  function IndiceAleatorio(rnd: real, n: nat): (i: nat)
    requires 0.0 <= rnd < 1.0 && n > 0
    ensures i < n
  {
    assert rnd * n as real < n as real by {
      assert (1.0 - rnd) * n as real > 0.0;
    }
    (rnd * n as real).Floor
  }

  /** Every index can come out of the draw: the value i/n of the random source picks i. */
  lemma IndiceAleatorioSobrejetivo(i: nat, n: nat)
    requires i < n
    ensures 0.0 <= i as real / n as real < 1.0
    ensures IndiceAleatorio(i as real / n as real, n) == i
  {
  }

  /** The guards shared by `iniciarJogo` and `reiniciarJogo`: the caller is host, three players at least. */
  predicate PodeDistribuir(s: Sala, hostSocketId: string)
    ensures PodeDistribuir(s, hostSocketId) <==>
      && (exists j :: 0 <= j < |s.jogadores| && s.jogadores[j].socketId == hostSocketId && s.jogadores[j].isHost)
      && |s.jogadores| >= 3
  {
    HostComSocket(s.jogadores, hostSocketId).Some? && |s.jogadores| >= MinJogadores
  }

  /** The cards of a deal: the player at `k` gets the spy card, every other one `local`, all face down. */
  function Distribuir(ps: seq<Jogador>, k: nat, local: string): (r: seq<Jogador>)
    requires k < |ps|
    ensures |r| == |ps|
    ensures r[k].carta == CartaEspiao
    ensures forall i :: 0 <= i < |r| && i != k ==> r[i].carta == local
    ensures forall i :: 0 <= i < |r| ==> !r[i].cartaRevelada && MesmaPessoa(r[i], ps[i])
  {
    seq(|ps|, i requires 0 <= i < |ps| =>
      ps[i].(carta := if i == k then CartaEspiao else local, cartaRevelada := false))
  }

  /** A deal with spy `k` and location `local`: the new round of the room. */
  function Rodada(s: Sala, k: nat, local: string): (r: Sala)
    requires k < |s.jogadores|
    ensures r.jogadores == Distribuir(s.jogadores, k, local)
    ensures r.local == local && r.espiao == s.jogadores[k].id && r.status == EmJogo
    ensures r.codigo == s.codigo && r.maxJogadores == s.maxJogadores && r.criadaEm == s.criadaEm
  {
    s.(jogadores := Distribuir(s.jogadores, k, local), local := local,
       espiao := s.jogadores[k].id, status := EmJogo)
  }

  /**
   * After a deal, when the location is not itself named "espiao", exactly
   * one player holds the spy card, and it is the player whose id the room
   * records as spy.
   */
  lemma UmEspiao(s: Sala, k: nat, local: string)
    requires k < |s.jogadores| && local != CartaEspiao
    ensures Conta(Rodada(s, k, local).jogadores, EhEspiao) == 1
    ensures forall i :: 0 <= i < |s.jogadores| ==>
      (EhEspiao(Rodada(s, k, local).jogadores[i]) <==> i == k)
    ensures Rodada(s, k, local).jogadores[k].id == Rodada(s, k, local).espiao
  {
    ContaSoUm(Distribuir(s.jogadores, k, local), k, EhEspiao);
  }

  /** A deal keeps the room valid: same players, same single host, same names. */
  lemma RodadaPreserva(s: Sala, k: nat, local: string)
    requires SalaValida(s) && k < |s.jogadores|
    ensures SalaValida(Rodada(s, k, local))
  {
    var r := Rodada(s, k, local);
    ContaIgual(s.jogadores, r.jogadores, EhHost);
    assert forall i :: 0 <= i < |r.jogadores| ==> r.jogadores[i].nome == s.jogadores[i].nome;
    if local != CartaEspiao {
      UmEspiao(s, k, local);
    }
  }

  // ---------------------------------------------------------------------
  // Revealing one's card

  /** `jogadores[i].cartaRevelada = true` */
  function Revelar(s: Sala, i: nat): (r: Sala)
    requires i < |s.jogadores|
    ensures |r.jogadores| == |s.jogadores|
    ensures r.jogadores[i] == s.jogadores[i].(cartaRevelada := true)
    ensures forall j :: 0 <= j < |s.jogadores| && j != i ==> r.jogadores[j] == s.jogadores[j]
    ensures r.(jogadores := s.jogadores) == s
  {
    s.(jogadores := s.jogadores[i := s.jogadores[i].(cartaRevelada := true)])
  }

  /** Revealing keeps the room valid: it changes no card, host or name. */
  lemma RevelarPreserva(s: Sala, i: nat)
    requires SalaValida(s) && i < |s.jogadores|
    ensures SalaValida(Revelar(s, i))
  {
    var r := Revelar(s, i);
    ContaIgual(s.jogadores, r.jogadores, EhHost);
    ContaIgual(s.jogadores, r.jogadores, EhEspiao);
    assert forall j :: 0 <= j < |r.jogadores| ==> r.jogadores[j].nome == s.jogadores[j].nome;
  }

  /**
   * Revealing has no status guard: a player of a room that is still
   * waiting can mark the card it does not yet have as revealed.
   */
  lemma RevelarAntesDoJogo(s: Sala, i: nat)
    requires SalaValida(s) && s.status == Aguardando && i < |s.jogadores|
    ensures Revelar(s, i).status == Aguardando
    ensures Revelar(s, i).jogadores[i].cartaRevelada && Revelar(s, i).jogadores[i].carta == SemCarta
  {
  }

  // ---------------------------------------------------------------------
  // The stale-room sweep

  /** A room created more than 24 hours before `agora`; activity plays no part. */
  predicate Expirada(s: Sala, agora: int)
    ensures Expirada(s, agora) <==> agora - s.criadaEm > 86_400_000
  {
    agora - s.criadaEm > TempoLimite
  }

  /**
   * Only the creation time decides: two rooms created at the same time are
   * both stale or both not, whatever their players and status; and a stale
   * room stays stale later on.
   */
  lemma ExpiradaSoPelaCriacao(s: Sala, t: Sala, agora: int, depois: int)
    requires s.criadaEm == t.criadaEm && agora <= depois
    ensures Expirada(s, agora) <==> Expirada(t, agora)
    ensures Expirada(s, agora) ==> Expirada(s, depois)
  {
  }

  /** The rooms that survive a sweep at time `agora`. */
  function SalasAtivas(m: map<string, Sala>, agora: int): (r: map<string, Sala>)
    ensures forall c :: c in r <==> c in m && !Expirada(m[c], agora)
    ensures forall c :: c in r ==> r[c] == m[c]
    ensures SalasValidas(m) ==> SalasValidas(r)
  {
    map c | c in m && !Expirada(m[c], agora) :: m[c]
  }

  /** A later sweep keeps no room that an earlier one would delete. */
  lemma SalasAtivasMonotona(m: map<string, Sala>, t1: int, t2: int)
    requires t1 <= t2
    ensures SalasAtivas(m, t2).Keys <= SalasAtivas(m, t1).Keys
    ensures SalasAtivas(SalasAtivas(m, t1), t2) == SalasAtivas(m, t2)
  {
  }
}
