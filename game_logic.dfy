/**
 * The room store and the operations of the session manager on it. The
 * server keeps one process-wide map from room code to room; `Store` is that
 * map, and each method is one static operation of the server's game logic.
 * Randomness, the clock, the id generator and the location list come in as
 * parameters.
 */
module GameLogic {
  import opened Wrappers
  import opened Types
  import opened GameRules

  class Store {
    /** The rooms, by code; codes are compared exactly as given. */
    var salas: map<string, Sala>

    /** Every stored room keeps the room invariant and its own code. */
    ghost predicate Valid()
      reads this
    {
      SalasValidas(salas)
    }

    /** The store starts empty. */
    constructor ()
      ensures Valid() && salas == map[]
    {
      salas := map[];
    }

    /**
     * Creates a room with its host alone and stores it under `codigo`,
     * replacing any room stored there before.
     */
    method CriarSala(codigo: string, hostNome: string, hostSocketId: string, novoId: string, agora: int)
      returns (sala: Sala)
      requires Valid()
      modifies this
      ensures Valid()
      ensures sala == NovaSala(codigo, hostNome, hostSocketId, novoId, agora)
      ensures salas == old(salas)[codigo := sala]
    {
      sala := NovaSala(codigo, hostNome, hostSocketId, novoId, agora);
      salas := salas[codigo := sala];
    }

    /**
     * Joins `codigo` under `nome`. An unknown code with `isHost` creates the
     * room; an unknown code without it, a room past waiting, a full room or
     * a name already there ignoring case is a refusal that changes nothing.
     * Otherwise one non-host player, with no card, goes to the end.
     */
    method EntrarSala(codigo: string, nome: string, socketId: string, isHost: bool, novoId: string, agora: int)
      returns (r: Option<Sala>)
      requires Valid()
      modifies this
      ensures Valid()
      ensures codigo !in old(salas) && isHost ==>
        r == Some(NovaSala(codigo, nome, socketId, novoId, agora)) && salas == old(salas)[codigo := r.value]
      ensures codigo !in old(salas) && !isHost ==> r == None && salas == old(salas)
      ensures codigo in old(salas) && EntradaRecusada(old(salas)[codigo], nome) ==>
        r == None && salas == old(salas)
      ensures codigo in old(salas) && !EntradaRecusada(old(salas)[codigo], nome) ==>
        && r == Some(ComJogador(old(salas)[codigo], NovoJogador(novoId, nome, socketId, false)))
        && salas == old(salas)[codigo := r.value]
      ensures r.Some? ==> codigo in salas && salas[codigo] == r.value && SalaValida(r.value)
    {
      if codigo !in salas {
        if isHost {
          var s := CriarSala(codigo, nome, socketId, novoId, agora);
          return Some(s);
        }
        return None;
      }
      var sala := salas[codigo];
      if sala.status != Aguardando {
        return None;
      }
      if |sala.jogadores| >= sala.maxJogadores {
        return None;
      }
      if NomeExiste(sala.jogadores, nome) {
        return None;
      }
      var novo := NovoJogador(novoId, nome, socketId, false);
      EntradaPreserva(sala, novoId, nome, socketId);
      sala := ComJogador(sala, novo);
      salas := salas[codigo := sala];
      return Some(sala);
    }

    /**
     * Removes the first player bound to `socketId`. The last player's leave
     * deletes the room and reports no room; a host's leave makes the new
     * first player host. An unknown room or connection changes nothing.
     */
    method SairSala(codigo: string, socketId: string)
      returns (sala: Option<Sala>, removido: Option<Jogador>)
      requires Valid()
      modifies this
      ensures Valid()
      ensures codigo !in old(salas) ==> sala == None && removido == None && salas == old(salas)
      ensures codigo in old(salas) && IndiceDoSocket(old(salas)[codigo].jogadores, socketId).None? ==>
        sala == Some(old(salas)[codigo]) && removido == None && salas == old(salas)
      ensures codigo in old(salas) && IndiceDoSocket(old(salas)[codigo].jogadores, socketId).Some? ==>
        var s := old(salas)[codigo];
        var i := IndiceDoSocket(s.jogadores, socketId).value;
        && removido == Some(s.jogadores[i])
        && (|s.jogadores| == 1 ==> sala == None && salas == old(salas) - {codigo})
        && (|s.jogadores| > 1 ==>
              && sala == Some(s.(jogadores := AposSaida(s.jogadores, i)))
              && salas == old(salas)[codigo := sala.value])
    {
      if codigo !in salas {
        return None, None;
      }
      var s := salas[codigo];
      var indice := IndiceDoSocket(s.jogadores, socketId);
      if indice.None? {
        return Some(s), None;
      }
      var i := indice.value;
      var jogador := s.jogadores[i];
      if |s.jogadores| == 1 {
        salas := salas - {codigo};
        return None, Some(jogador);
      }
      SaidaPreserva(s, i);
      s := s.(jogadores := AposSaida(s.jogadores, i));
      salas := salas[codigo := s];
      return Some(s), Some(jogador);
    }

    /**
     * Deals the first round: the caller must be the room's host, the room
     * must hold three players and still be waiting; otherwise nothing
     * changes. `rndLocal` and `rndEspiao` are the two draws of the random
     * source, in [0, 1).
     */
    method IniciarJogo(codigo: string, hostSocketId: string, locais: seq<string>, rndLocal: real, rndEspiao: real)
      returns (r: Option<Sala>)
      requires Valid()
      requires |locais| > 0 && 0.0 <= rndLocal < 1.0 && 0.0 <= rndEspiao < 1.0
      modifies this
      ensures Valid()
      ensures codigo !in old(salas) ==> r == None && salas == old(salas)
      ensures codigo in old(salas) ==>
        var s := old(salas)[codigo];
        if PodeDistribuir(s, hostSocketId) && s.status == Aguardando then
          && r == Some(Rodada(s, IndiceAleatorio(rndEspiao, |s.jogadores|), locais[IndiceAleatorio(rndLocal, |locais|)]))
          && salas == old(salas)[codigo := r.value]
        else
          r == None && salas == old(salas)
    {
      if codigo !in salas {
        return None;
      }
      var s := salas[codigo];
      if HostComSocket(s.jogadores, hostSocketId).None? {
        return None;
      }
      if |s.jogadores| < MinJogadores {
        return None;
      }
      if s.status != Aguardando {
        return None;
      }
      r := Distribui(codigo, s, locais, rndLocal, rndEspiao);
    }

    /**
     * Deals a new round with the same guards as IniciarJogo except the
     * status: it deals from any status, waiting included.
     */
    method ReiniciarJogo(codigo: string, hostSocketId: string, locais: seq<string>, rndLocal: real, rndEspiao: real)
      returns (r: Option<Sala>)
      requires Valid()
      requires |locais| > 0 && 0.0 <= rndLocal < 1.0 && 0.0 <= rndEspiao < 1.0
      modifies this
      ensures Valid()
      ensures codigo !in old(salas) ==> r == None && salas == old(salas)
      ensures codigo in old(salas) ==>
        var s := old(salas)[codigo];
        if PodeDistribuir(s, hostSocketId) then
          && r == Some(Rodada(s, IndiceAleatorio(rndEspiao, |s.jogadores|), locais[IndiceAleatorio(rndLocal, |locais|)]))
          && salas == old(salas)[codigo := r.value]
        else
          r == None && salas == old(salas)
    {
      if codigo !in salas {
        return None;
      }
      var s := salas[codigo];
      if HostComSocket(s.jogadores, hostSocketId).None? {
        return None;
      }
      if |s.jogadores| < MinJogadores {
        return None;
      }
      r := Distribui(codigo, s, locais, rndLocal, rndEspiao);
    }

    /** The deal itself, shared by IniciarJogo and ReiniciarJogo. */
    method Distribui(codigo: string, s: Sala, locais: seq<string>, rndLocal: real, rndEspiao: real)
      returns (r: Option<Sala>)
      requires Valid() && codigo in salas && salas[codigo] == s
      requires |locais| > 0 && 0.0 <= rndLocal < 1.0 && 0.0 <= rndEspiao < 1.0
      modifies this
      ensures Valid()
      ensures r == Some(Rodada(s, IndiceAleatorio(rndEspiao, |s.jogadores|), locais[IndiceAleatorio(rndLocal, |locais|)]))
      ensures salas == old(salas)[codigo := r.value]
    {
      var local := locais[IndiceAleatorio(rndLocal, |locais|)];
      var espiaoIndex := IndiceAleatorio(rndEspiao, |s.jogadores|);
      RodadaPreserva(s, espiaoIndex, local);
      var nova := Rodada(s, espiaoIndex, local);
      salas := salas[codigo := nova];
      return Some(nova);
    }

    /**
     * Marks the card of the first player bound to `socketId` as revealed and
     * reports that player; an unknown room or connection changes nothing.
     */
    method RevelarCarta(codigo: string, socketId: string)
      returns (sala: Option<Sala>, jogador: Option<Jogador>)
      requires Valid()
      modifies this
      ensures Valid()
      ensures codigo !in old(salas) ==> sala == None && jogador == None && salas == old(salas)
      ensures codigo in old(salas) && IndiceDoSocket(old(salas)[codigo].jogadores, socketId).None? ==>
        sala == Some(old(salas)[codigo]) && jogador == None && salas == old(salas)
      ensures codigo in old(salas) && IndiceDoSocket(old(salas)[codigo].jogadores, socketId).Some? ==>
        var s := old(salas)[codigo];
        var i := IndiceDoSocket(s.jogadores, socketId).value;
        && sala == Some(Revelar(s, i))
        && jogador == Some(Revelar(s, i).jogadores[i])
        && salas == old(salas)[codigo := sala.value]
    {
      if codigo !in salas {
        return None, None;
      }
      var s := salas[codigo];
      var indice := IndiceDoSocket(s.jogadores, socketId);
      if indice.None? {
        return Some(s), None;
      }
      var i := indice.value;
      RevelarPreserva(s, i);
      s := Revelar(s, i);
      salas := salas[codigo := s];
      return Some(s), Some(s.jogadores[i]);
    }

    /** The room stored under `codigo`; a stored room is never empty. */
    function ObterSala(codigo: string): (r: Option<Sala>)
      reads this
      requires Valid()
      ensures r.Some? <==> codigo in salas
      ensures r.Some? ==> r.value == salas[codigo] && r.value.codigo == codigo && |r.value.jogadores| >= 1
    {
      if codigo in salas then Some(salas[codigo]) else None
    }

    /** The first player of room `codigo` bound to `socketId`. */
    function ObterJogadorPorSocket(codigo: string, socketId: string): (r: Option<Jogador>)
      reads this
      ensures r.Some? ==> codigo in salas && exists i ::
        && 0 <= i < |salas[codigo].jogadores|
        && salas[codigo].jogadores[i] == r.value && r.value.socketId == socketId
        && forall j :: 0 <= j < i ==> salas[codigo].jogadores[j].socketId != socketId
      ensures r.None? <==> codigo !in salas || forall j :: 0 <= j < |salas[codigo].jogadores| ==>
                                                              salas[codigo].jogadores[j].socketId != socketId
    {
      if codigo !in salas then None
      else match IndiceDoSocket(salas[codigo].jogadores, socketId)
        case None => None
        case Some(i) => Some(salas[codigo].jogadores[i])
    }

    /**
     * Deletes every room created more than 24 hours before `agora`, visiting
     * the rooms one at a time, and leaves every other room as it was.
     */
    method LimparSalasAntigas(agora: int)
      requires Valid()
      modifies this
      ensures Valid()
      ensures salas == SalasAtivas(old(salas), agora)
    {
      ghost var antes := salas;
      var pendentes := salas.Keys;
      while pendentes != {}
        invariant pendentes <= antes.Keys
        invariant salas.Keys == pendentes + SalasAtivas(antes, agora).Keys
        invariant forall c :: c in salas ==> salas[c] == antes[c]
        decreases pendentes
      {
        var codigo :| codigo in pendentes;
        if Expirada(salas[codigo], agora) {
          salas := salas - {codigo};
        }
        pendentes := pendentes - {codigo};
      }
      assert salas == SalasAtivas(antes, agora);
    }
  }
}
