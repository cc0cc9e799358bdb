/** The registration service: a repository of saved clients and, in the
    service object, the in-memory table from API key to client. The random UUID
    source is modelled as the sequence `draws` of the keys it would yield, in
    order; `CreateApiKey` consumes them until one is not yet in the table. */
module ClientService {
  import opened Chars
  import opened EmailPattern
  import opened Validation

  /** A registered client. */
  datatype Client = Client(name: string, email: string)

  /** What `saveClient` hands back: the new API key, or the validation error. */
  datatype SaveOutcome = Saved(apiKey: string) | Rejected(error: ValidationError)

  /** The addresses of a list of saved clients: what `existsByEmail` looks up. */
  function EmailsOf(clients: seq<Client>): (es: set<string>)
    ensures forall i :: 0 <= i < |clients| ==> clients[i].email in es
    ensures forall e :: e in es ==> exists i :: 0 <= i < |clients| && clients[i].email == e
  {
    set c | c in clients :: c.email
  }

  /** No two saved clients share an address. */
  predicate UniqueEmails(clients: seq<Client>)
  {
    forall i, j :: 0 <= i < j < |clients| ==> clients[i].email != clients[j].email
  }

  /** A client whose fields pass both checks. */
  predicate IsValidClient(c: Client)
  {
    ValidateName(Some(c.name)).Pass? && !IsBlank(c.email) && IsWellFormed(c.email)
  }

  /** What registering through `saveClient` keeps true of the key table and the
      repository: addresses are unique, every saved client passed validation,
      every key names a saved client, and no client holds two keys. */
  ghost predicate Consistent(keys: map<string, Client>, saved: seq<Client>)
  {
    UniqueEmails(saved)
    && (forall i :: 0 <= i < |saved| ==> IsValidClient(saved[i]))
    && (forall k :: k in keys ==> keys[k] in saved)
    && (forall k1, k2 :: k1 in keys && k2 in keys && k1 != k2 ==> keys[k1] != keys[k2])
  }

  /** One successful registration keeps the table and repository consistent. */
  lemma RegistrationKeepsConsistent(keys: map<string, Client>, saved: seq<Client>, key: string, c: Client)
    requires Consistent(keys, saved)
    requires key !in keys
    requires ValidateInput(Some(c.name), Some(c.email), EmailsOf(saved)).Pass?
    ensures Consistent(keys[key := c], saved + [c])
  {
  }

  /** Once a client is saved its address counts as taken. */
  lemma SavedEmailNowTaken(saved: seq<Client>, c: Client)
    requires !IsBlank(c.email)
    ensures ValidateEmail(Some(c.email), EmailsOf(saved + [c])) == Fail(InvalidEmail(EmailTaken))
  {
  }

  /** `xs` lists the set `ks`: each member once, and nothing else. */
  predicate IsListing(xs: seq<string>, ks: set<string>)
  {
    (forall i, j :: 0 <= i < j < |xs| ==> xs[i] != xs[j])
    && (forall i :: 0 <= i < |xs| ==> xs[i] in ks)
    && (forall k :: k in ks ==> k in xs)
  }

  /** A listing holds the members of the set with multiplicity one. */
  lemma {:induction false} ListingMultiset(xs: seq<string>, ks: set<string>)
    requires IsListing(xs, ks)
    ensures multiset(xs) == multiset(ks)
    ensures |xs| == |ks|
  {
    if xs == [] {
      assert ks == {};
    } else {
      var x, rest := xs[0], ks - {xs[0]};
      assert IsListing(xs[1..], rest) by {
        forall k | k in rest ensures k in xs[1..] {
          var i :| 0 <= i < |xs| && xs[i] == k;
          assert i != 0;
          assert xs[1..][i - 1] == k;
        }
        forall i | 0 <= i < |xs[1..]| ensures xs[1..][i] in rest {
          assert xs[1..][i] == xs[i + 1] != xs[0];
        }
      }
      ListingMultiset(xs[1..], rest);
      assert xs == [x] + xs[1..];
      assert ks == rest + {x};
    }
  }

  /** Two listings of the same key set hold the same keys, each once: listing
      the keys twice with no registration between gives the same collection. */
  lemma ListingsAgree(a: seq<string>, b: seq<string>, ks: set<string>)
    requires IsListing(a, ks) && IsListing(b, ks)
    ensures multiset(a) == multiset(b) && |a| == |b|
  {
    ListingMultiset(a, ks);
    ListingMultiset(b, ks);
  }

  /** The persistence collaborator, reduced to the list of saved clients. */
  class ClientRepository {
    var saved: seq<Client>

    constructor ()
      ensures saved == []
    {
      saved := [];
    }

    /** `existsByEmail` */
    function ExistsByEmail(email: string): (b: bool)
      reads this
      ensures b <==> exists i :: 0 <= i < |saved| && saved[i].email == email
    {
      email in EmailsOf(saved)
    }

    /** `save`: the client is appended. */
    method Save(client: Client)
      modifies this
      ensures saved == old(saved) + [client]
    {
      saved := saved + [client];
    }
  }

  class ClientServiceImpl {
    const clientRepository: ClientRepository
    var apiKeys: map<string, Client>

    ghost predicate Valid()
      reads this, clientRepository
    {
      Consistent(apiKeys, clientRepository.saved)
    }

    constructor (clientRepository: ClientRepository)
      ensures this.clientRepository == clientRepository && apiKeys == map[]
      ensures clientRepository.saved == [] ==> Valid()
    {
      this.clientRepository := clientRepository;
      apiKeys := map[];
    }

    /** `addApiKeys`: an unconditional put, overwriting any previous client. */
    method AddApiKeys(apiKey: string, client: Client)
      modifies this
      ensures apiKeys == old(apiKeys)[apiKey := client]
    {
      apiKeys := apiKeys[apiKey := client];
    }

    /** `getApiKeys`: every key of the table, each once, in no stated order. */
    method GetApiKeys() returns (keys: seq<string>)
      ensures IsListing(keys, apiKeys.Keys)
      ensures |keys| == |apiKeys|
    {
      keys := [];
      var rest := apiKeys.Keys;
      while rest != {}
        invariant rest <= apiKeys.Keys
        invariant forall i, j :: 0 <= i < j < |keys| ==> keys[i] != keys[j]
        invariant forall i :: 0 <= i < |keys| ==> keys[i] in apiKeys.Keys - rest
        invariant forall k :: k in apiKeys.Keys - rest ==> k in keys
        decreases |rest|
      {
        var k :| k in rest;
        keys := keys + [k];
        rest := rest - {k};
      }
      ListingMultiset(keys, apiKeys.Keys);
    }

    /** `checkIfApiKeyExists` */
    function CheckIfApiKeyExists(apiKey: string): (b: bool)
      reads this
      ensures b <==> apiKey in apiKeys
    {
      apiKey in apiKeys
    }

    /** `createApiKey`: draws keys until one is not in the table. `used` is the
        index of the returned draw; every earlier draw collided. */
    method CreateApiKey(draws: seq<string>) returns (key: string, used: nat)
      requires exists n :: 0 <= n < |draws| && draws[n] !in apiKeys
      ensures used < |draws| && key == draws[used]
      ensures !CheckIfApiKeyExists(key)
      ensures forall n :: 0 <= n < used ==> CheckIfApiKeyExists(draws[n])
    {
      used := 0;
      key := draws[0];
      while CheckIfApiKeyExists(key)
        invariant used < |draws| && key == draws[used]
        invariant forall n :: 0 <= n < used ==> draws[n] in apiKeys
        decreases |draws| - used
      {
        used := used + 1;
        key := draws[used];
      }
    }

    /** `saveClient`: validate, draw a fresh key, save the client and enter it
        in the table under that key. */
    method SaveClient(name: Option<string>, email: Option<string>, draws: seq<string>) returns (r: SaveOutcome)
      requires exists n :: 0 <= n < |draws| && draws[n] !in apiKeys
      modifies this, clientRepository
      ensures r.Rejected? <==> ValidateInput(name, email, EmailsOf(old(clientRepository.saved))).Fail?
      ensures r.Rejected? ==> r.error == ValidateInput(name, email, EmailsOf(old(clientRepository.saved))).error
      ensures r.Rejected? ==> apiKeys == old(apiKeys) && clientRepository.saved == old(clientRepository.saved)
      ensures r.Saved? ==> name.Some? && email.Some? && r.apiKey in draws && r.apiKey !in old(apiKeys)
      ensures r.Saved? ==> apiKeys == old(apiKeys)[r.apiKey := Client(name.value, email.value)]
      ensures r.Saved? ==> |apiKeys| == |old(apiKeys)| + 1 && CheckIfApiKeyExists(r.apiKey)
      ensures r.Saved? ==> clientRepository.saved == old(clientRepository.saved) + [Client(name.value, email.value)]
      ensures old(Valid()) ==> Valid()
    {
      var verdict := ValidateInput(name, email, EmailsOf(clientRepository.saved));
      if verdict.Fail? {
        return Rejected(verdict.error);
      }
      var key, _ := CreateApiKey(draws);
      var client := Client(name.value, email.value);
      if Valid() {
        RegistrationKeepsConsistent(apiKeys, clientRepository.saved, key, client);
      }
      clientRepository.Save(client);
      apiKeys := apiKeys[key := client];
      r := Saved(key);
    }
  }
}
